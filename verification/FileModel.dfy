/** File bytes over an extent list and a block device, and the plain byte string
    they must agree with (fuse/file_ops.go, fuse/extent_ops.go). */
module FileModel {
  import opened Bytes
  import opened Extents
  import opened Options

  const BS := 4096
  /** MAX_LFS_FILESIZE, the largest file size or offset. */
  const MAX_FILE := 0x7FFF_FFFF_FFFF_FFFF
  const U64_MAX := 0xFFFF_FFFF_FFFF_FFFF

  type Block = s: seq<Byte> | |s| == BS witness Zeros(BS)
  type Device = map<nat, Block>

  function Zeros(n: nat): (s: seq<Byte>)
    ensures |s| == n && forall i :: 0 <= i < n ==> s[i] == 0
  {
    seq(n, _ => 0)
  }

  function ReadBlock(dev: Device, p: nat): (r: Block) {
    if p in dev then dev[p] else Zeros(BS)
  }

  /** Byte i of the file's address space: holes and unwritten blocks read as zero. */
  function ByteAt(dev: Device, exts: seq<Extent>, i: nat): (r: Byte) {
    var c := At(exts, i / BS);
    if c.Some? && !c.value.unwritten then ReadBlock(dev, c.value.phys)[i % BS] else 0
  }

  /** The file as a byte string. */
  function Content(dev: Device, exts: seq<Extent>, size: nat): (r: seq<Byte>)
    ensures |r| == size && forall i :: 0 <= i < size ==> r[i] == ByteAt(dev, exts, i)
  {
    seq(size, i requires 0 <= i => ByteAt(dev, exts, i))
  }

  function CeilBlk(n: nat): (b: nat) {
    (n + BS - 1) / BS
  }

  ghost predicate NoWrittenPastEof(exts: seq<Extent>, size: nat) {
    forall b: nat :: CeilBlk(size) <= b && At(exts, b).Some? ==> At(exts, b).value.unwritten
  }

  /** Same bytes everywhere. */
  ghost predicate SameBytes(dev: Device, exts: seq<Extent>, dev': Device, exts': seq<Extent>) {
    forall i: nat :: ByteAt(dev', exts', i) == ByteAt(dev, exts, i)
  }

  /** seg written over buf at position at. */
  function Patch(buf: Block, at: nat, seg: seq<Byte>): (r: Block)
    requires at + |seg| <= BS
    ensures forall j :: 0 <= j < BS ==> r[j] == if at <= j < at + |seg| then seg[j - at] else buf[j]
  {
    buf[..at] + seg + buf[at + |seg|..]
  }

  // ---------------------------------------------------------------------------
  // The plain byte string under the same operations

  function WriteSpec(c: seq<Byte>, off: nat, data: seq<Byte>): (r: seq<Byte>) {
    var n := if data != [] && off + |data| > |c| then off + |data| else |c|;
    seq(n, i requires 0 <= i < n =>
      if off <= i < off + |data| then data[i - off] else if i < |c| then c[i] else 0)
  }

  function ResizeSpec(c: seq<Byte>, n: nat): (r: seq<Byte>) {
    if n <= |c| then c[..n] else c + Zeros(n - |c|)
  }

  /** Zero the bytes of [off, end) that exist. */
  function ZeroSpec(c: seq<Byte>, off: nat, end: nat): (r: seq<Byte>) {
    seq(|c|, i requires 0 <= i < |c| => if off <= i < end then 0 else c[i])
  }

  function CollapseSpec(c: seq<Byte>, off: nat, len: nat): (r: seq<Byte>)
    requires off + len <= |c|
  {
    c[..off] + c[off + len..]
  }

  function InsertSpec(c: seq<Byte>, off: nat, len: nat): (r: seq<Byte>)
    requires off <= |c|
  {
    c[..off] + Zeros(len) + c[off..]
  }

  lemma WriteIs(c: seq<Byte>, off: nat, data: seq<Byte>)
    requires data != []
    ensures var r := WriteSpec(c, off, data);
      && |r| == (if off + |data| > |c| then off + |data| else |c|)
      && forall i: nat :: i < |r| ==>
        r[i] == if off <= i < off + |data| then data[i - off] else if i < |c| then c[i] else 0
  {
  }

  lemma ResizeIs(c: seq<Byte>, n: nat)
    ensures |ResizeSpec(c, n)| == n
    ensures forall i: nat :: i < n ==> ResizeSpec(c, n)[i] == if i < |c| then c[i] else 0
  {
  }

  lemma InsertIs(c: seq<Byte>, off: nat, len: nat)
    requires off <= |c|
    ensures var r := InsertSpec(c, off, len);
      && |r| == |c| + len && r[..off] == c[..off] && r[off + len..] == c[off..]
      && forall i: nat :: off <= i < off + len ==> r[i] == 0
  {
  }

  // ---------------------------------------------------------------------------
  // Effect of device and extent-list changes on bytes

  /** Writing a mapped block changes only that file block. */
  lemma DevUpdate(dev: Device, exts: seq<Extent>, b: nat, buf: Block)
    requires Injective(exts) && At(exts, b).Some?
    ensures var dev' := dev[At(exts, b).value.phys := buf];
      forall i: nat :: ByteAt(dev', exts, i) ==
        if i / BS == b && !At(exts, b).value.unwritten then buf[i % BS] else ByteAt(dev, exts, i)
  {
    var dev' := dev[At(exts, b).value.phys := buf];
    forall i: nat ensures ByteAt(dev', exts, i) ==
      if i / BS == b && !At(exts, b).value.unwritten then buf[i % BS] else ByteAt(dev, exts, i)
    {
      if i / BS != b && At(exts, i / BS).Some? {
        assert At(exts, i / BS).value.phys != At(exts, b).value.phys;
      }
    }
  }

  /** Filling holes with unwritten blocks changes no byte. */
  lemma UnwrittenInvisible(dev: Device, exts: seq<Extent>, exts': seq<Extent>)
    requires forall b: nat ::
      At(exts', b) == At(exts, b) || (At(exts, b) == None && At(exts', b).Some? && At(exts', b).value.unwritten)
    ensures SameBytes(dev, exts, dev, exts')
  {
  }

  /** A fresh device block put in a hole keeps the map injective. */
  lemma InsertInjective(r: seq<Extent>, exts: seq<Extent>, e: Extent)
    requires Inserted(r, exts, e) && Injective(exts)
    requires forall b: nat :: At(exts, b).Some? ==> !InSpan(e.phys, e.len, At(exts, b).value.phys)
    ensures Injective(r)
  {
    forall a: nat, b: nat | At(r, a).Some? && At(r, b).Some? && At(r, a).value.phys == At(r, b).value.phys
      ensures a == b
    {
      assert Covers(e, a) ==> InSpan(e.phys, e.len, At(r, a).value.phys);
      assert Covers(e, b) ==> InSpan(e.phys, e.len, At(r, b).value.phys);
    }
  }

  /** Changing flags only keeps the map injective. */
  lemma SamePhysInjective(exts: seq<Extent>, exts': seq<Extent>)
    requires Injective(exts)
    requires forall b: nat :: At(exts', b).Some? ==>
      At(exts, b).Some? && At(exts, b).value.phys == At(exts', b).value.phys
    ensures Injective(exts')
  {
    forall a: nat, b: nat | At(exts', a).Some? && At(exts', b).Some? &&
      At(exts', a).value.phys == At(exts', b).value.phys
      ensures a == b
    {
      assert At(exts, a).Some? && At(exts, b).Some?;
    }
  }
}
