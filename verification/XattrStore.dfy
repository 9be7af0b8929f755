/** The extended attributes of one inode over whole histories of set, replace, remove and get (fuse/xattr.go). */
module XattrStore {
  import opened Bytes
  import opened Options
  import opened XattrCodec
  import opened XattrPlan

  datatype Errno = Ok | ENODATA | EEXIST | ERANGE | E2BIG | NoSpace

  /** value None removes the attribute; create and replace are the XATTR_CREATE and XATTR_REPLACE flags. */
  datatype Request = Request(name: seq<Byte>, value: Option<seq<Byte>>, create: bool, replace: bool)

  // ---------------------------------------------------------------------------
  // Attributes as an ordered map

  /** The position of a name, or the length. */
  function Index(kvs: seq<KV>, name: seq<Byte>): (i: nat)
    ensures i <= |kvs| && (i < |kvs| ==> kvs[i].name == name) && forall j :: 0 <= j < i ==> kvs[j].name != name
  {
    if kvs == [] then 0 else if kvs[0].name == name then 0 else 1 + Index(kvs[1..], name)
  }

  function Lookup(kvs: seq<KV>, name: seq<Byte>): (v: Option<seq<Byte>>) {
    var i := Index(kvs, name);
    if i < |kvs| then Some(kvs[i].value) else None
  }

  predicate DistinctNames(kvs: seq<KV>) {
    forall i, j :: 0 <= i < j < |kvs| ==> kvs[i].name != kvs[j].name
  }

  /** What the checks of setXattr and setXattrLocked answer before any block is allocated. */
  function Check(kvs: seq<KV>, q: Request): (e: Errno) {
    if |q.name| > MAX_NAME then ERANGE
    else if q.value.Some? && |q.value.value| > MAX_VALUE then E2BIG
    else
      var present := Index(kvs, q.name) < |kvs|;
      if q.value.None? then if present then Ok else ENODATA
      else if present && q.create then EEXIST
      else if !present && q.replace then ENODATA
      else Ok
  }

  function Edited(kvs: seq<KV>, q: Request): (r: seq<KV>) {
    var i := Index(kvs, q.name);
    if q.value.None? then if i < |kvs| then kvs[..i] + kvs[i+1..] else kvs
    else if i < |kvs| then kvs[i := KV(q.name, q.value.value)] else kvs + [KV(q.name, q.value.value)]
  }

  lemma IndexIs(kvs: seq<KV>, name: seq<Byte>, i: nat)
    requires i <= |kvs| && (i < |kvs| ==> kvs[i].name == name) && forall j :: 0 <= j < i ==> kvs[j].name != name
    ensures Index(kvs, name) == i
  {
  }

  /** The edit is the map update: the named attribute takes the value or goes, every other one stays. */
  lemma EditLookup(kvs: seq<KV>, q: Request, name: seq<Byte>)
    requires DistinctNames(kvs)
    ensures Lookup(Edited(kvs, q), name) == if name == q.name then q.value else Lookup(kvs, name)
  {
    var i, j, r := Index(kvs, q.name), Index(kvs, name), Edited(kvs, q);
    if q.value.None? && i < |kvs| {
      forall t | 0 <= t < |r| ensures r[t] == kvs[if t < i then t else t + 1] {}
      if name == q.name { IndexIs(r, name, |r|); }
      else if j == |kvs| { IndexIs(r, name, |r|); }
      else { IndexIs(r, name, if j < i then j else j - 1); }
    } else if q.value.Some? {
      if name == q.name { IndexIs(r, name, i); }
      else if j < |kvs| { IndexIs(r, name, j); }
      else { IndexIs(r, name, |r|); }
    }
  }

  /** Names stay distinct, and the order of the attributes that stay does not change. */
  lemma EditDistinct(kvs: seq<KV>, q: Request)
    requires DistinctNames(kvs)
    ensures DistinctNames(Edited(kvs, q))
  {
    var i, r := Index(kvs, q.name), Edited(kvs, q);
    if q.value.None? && i < |kvs| {
      forall t | 0 <= t < |r| ensures r[t] == kvs[if t < i then t else t + 1] {}
    }
  }

  lemma EditAllowed(kvs: seq<KV>, q: Request)
    requires Allowed(kvs) && Check(kvs, q) == Ok
    ensures Allowed(Edited(kvs, q))
  {
    var i, r := Index(kvs, q.name), Edited(kvs, q);
    if q.value.None? {
      forall t | 0 <= t < |r| ensures r[t] == kvs[if t < i then t else t + 1] {}
    }
  }

  lemma KeptNames(kvs: seq<KV>)
    ensures DistinctNames(kvs) ==> DistinctNames(KeptAll(kvs))
    ensures Allowed(kvs) ==> Allowed(KeptAll(kvs))
  {
  }

  // ---------------------------------------------------------------------------
  // Histories

  /** What a request leaves when it succeeds: the edit, as the chain keeps it. */
  ghost predicate Stepped(kvs: seq<KV>, q: Request, e: Errno, r: seq<KV>) {
    if e == Ok then Check(kvs, q) == Ok && r == KeptAll(Edited(kvs, q))
    else r == kvs && (e == Check(kvs, q) || (e == NoSpace && Check(kvs, q) == Ok))
  }

  ghost predicate History(trace: seq<seq<KV>>, reqs: seq<Request>, errs: seq<Errno>) {
    && |trace| == |reqs| + 1 && |errs| == |reqs|
    && forall k :: 0 <= k < |reqs| ==> Stepped(trace[k], reqs[k], errs[k], trace[k+1])
  }

  /** What the 16-bit length field keeps of a value. */
  function KeptValue(v: Option<seq<Byte>>): (r: Option<seq<Byte>>) {
    if v.Some? && |v.value| >= 65536 then Some([]) else v
  }

  /** The value of the last request for a name that succeeded, else the one before. */
  function LastValue(was: Option<seq<Byte>>, reqs: seq<Request>, errs: seq<Errno>,
                     name: seq<Byte>): (v: Option<seq<Byte>>)
    requires |errs| == |reqs|
  {
    if reqs == [] then was
    else
      var n := |reqs| - 1;
      if errs[n] == Ok && reqs[n].name == name then KeptValue(reqs[n].value)
      else LastValue(was, reqs[..n], errs[..n], name)
  }

  /** Every value is one the length field keeps, as in every list that was loaded. */
  predicate Short(kvs: seq<KV>) {
    forall i :: 0 <= i < |kvs| ==> |kvs[i].value| < 65536
  }

  lemma KeptLookup(kvs: seq<KV>, name: seq<Byte>)
    ensures Short(KeptAll(kvs)) && Lookup(KeptAll(kvs), name) == KeptValue(Lookup(kvs, name))
  {
    IndexIs(KeptAll(kvs), name, Index(kvs, name));
  }

  /** What a request that succeeds leaves under each name. */
  lemma KeptEdit(kvs: seq<KV>, q: Request)
    requires DistinctNames(kvs) && Short(kvs)
    ensures forall name ::
      Lookup(KeptAll(Edited(kvs, q)), name) == if name == q.name then KeptValue(q.value) else Lookup(kvs, name)
  {
    forall name
      ensures Lookup(KeptAll(Edited(kvs, q)), name) == if name == q.name then KeptValue(q.value) else Lookup(kvs, name)
    {
      EditLookup(kvs, q, name);
      KeptLookup(Edited(kvs, q), name);
    }
  }

  /** Over every history each attribute reads as the last request that set or removed it. */
  lemma {:induction false} LastRequestWins(trace: seq<seq<KV>>, reqs: seq<Request>, errs: seq<Errno>, name: seq<Byte>)
    requires History(trace, reqs, errs) && DistinctNames(trace[0]) && Short(trace[0])
    ensures DistinctNames(trace[|reqs|]) && Short(trace[|reqs|])
    ensures Lookup(trace[|reqs|], name) == LastValue(Lookup(trace[0], name), reqs, errs, name)
    decreases |reqs|
  {
    if reqs != [] {
      var n := |reqs| - 1;
      LastRequestWins(trace[..n+1], reqs[..n], errs[..n], name);
      assert Stepped(trace[n], reqs[n], errs[n], trace[n+1]);
      if errs[n] == Ok {
        EditLookup(trace[n], reqs[n], name);
        EditDistinct(trace[n], reqs[n]);
        KeptNames(Edited(trace[n], reqs[n]));
        KeptLookup(Edited(trace[n], reqs[n]), name);
      }
    }
  }

  // ---------------------------------------------------------------------------
  // The inode

  class XattrFile {
    var dev: map<nat, Block>
    var head: nat
    ghost var stored: seq<KV>
    ghost var descs: seq<Desc>
    ghost var chain: seq<nat>
    ghost var blocks: seq<Block>

    /** The chain from the head renders the attributes stored last. */
    ghost predicate Valid()
      reads this
    {
      && Allowed(stored) && DistinctNames(stored) && Plan(stored, descs, |stored|) && AllRendered(stored, descs, blocks)
      && IsChain(dev, chain, head) && ReadUpTo(dev, chain, blocks) && |blocks| == |chain|
    }

    /** The attributes a reader finds. */
    ghost function Attrs(): (r: seq<KV>)
      reads this
    {
      KeptAll(stored)
    }

    /** Every state starts a history LastRequestWins speaks of. */
    lemma Reads()
      requires Valid()
      ensures DistinctNames(Attrs()) && Short(Attrs())
    {
      KeptNames(stored);
    }

    constructor (dev: map<nat, Block>)
      ensures Valid() && Attrs() == [] && head == 0
    {
      this.dev, head, stored, descs, chain, blocks := dev, 0, [], [], [], [];
      new;
      NoBlocks([]);
    }

    method Load() returns (kvs: seq<KV>)
      requires Valid()
      ensures kvs == Attrs()
    {
      kvs := LoadChain(dev, head, stored, descs, chain, blocks);
    }

    /** getXattr. */
    method Get(name: seq<Byte>) returns (e: Errno, value: seq<Byte>)
      requires Valid()
      ensures e == if |name| > MAX_NAME then ERANGE else if Lookup(Attrs(), name).Some? then Ok else ENODATA
      ensures e == Ok ==> Lookup(Attrs(), name) == Some(value)
    {
      if |name| > MAX_NAME { return ERANGE, []; }
      var kvs := Load();
      for i := 0 to |kvs|
        invariant forall j :: 0 <= j < i ==> kvs[j].name != name
      {
        if kvs[i].name == name {
          IndexIs(kvs, name, i);
          return Ok, kvs[i].value;
        }
      }
      IndexIs(kvs, name, |kvs|);
      return ENODATA, [];
    }

    /** listXattr. */
    method List() returns (names: seq<seq<Byte>>)
      requires Valid()
      ensures |names| == |Attrs()| && forall i :: 0 <= i < |names| ==> names[i] == Attrs()[i].name
    {
      var kvs := Load();
      names := [];
      for i := 0 to |kvs|
        invariant |names| == i && forall j :: 0 <= j < i ==> names[j] == kvs[j].name
      {
        names := names + [kvs[i].name];
      }
    }

    /** setXattr and setXattrLocked: the edit of the loaded attributes, rewritten to a fresh chain on the blocks the
        allocator gives. A request that passes the checks fails only for a chain too long or blocks too few. */
    method Set(q: Request, abs: seq<nat>) returns (e: Errno, ghost plan: seq<Desc>)
      requires Valid() && Separate(abs)
      modifies this
      ensures Valid() && Stepped(old(Attrs()), q, e, Attrs())
      ensures e == ERANGE <==> |q.name| > 255
      ensures e == E2BIG <==> |q.name| <= 255 && q.value.Some? && |q.value.value| > 65536
      ensures |q.name| <= 255 && (q.value.Some? ==> |q.value.value| <= 65536) ==>
        var present := Lookup(old(Attrs()), q.name).Some?;
        && (e == EEXIST <==> q.value.Some? && present && q.create)
        && (e == ENODATA <==> !present && (q.value.None? || q.replace))
      ensures e == Ok ==> forall name ::
        Lookup(Attrs(), name) == if name == q.name then KeptValue(q.value) else Lookup(old(Attrs()), name)
      ensures Check(old(Attrs()), q) == Ok ==>
        && Plan(Edited(old(Attrs()), q), plan, |Edited(old(Attrs()), q)|) && Packed(Edited(old(Attrs()), q), plan)
        && (e == NoSpace <==> |plan| > MAX_CHAIN || |abs| < |plan|)
      ensures e != Ok ==> unchanged(this)
    {
      if |q.name| > MAX_NAME { return ERANGE, []; }
      if q.value.Some? && |q.value.value| > MAX_VALUE { return E2BIG, []; }
      Reads();
      ghost var kvs := Attrs();
      hide Plan, Packed, Edited, KeptAll, Index, DistinctNames, Short, AllRendered, IsChain, ReadUpTo, Allowed,
        Separate;
      e, plan := SetLocked(q, abs);
      if e == Ok { KeptEdit(kvs, q); }
    }

    /** setXattrLocked. */
    method SetLocked(q: Request, abs: seq<nat>) returns (e: Errno, ghost plan: seq<Desc>)
      requires Valid() && Separate(abs) && |q.name| <= MAX_NAME && (q.value.Some? ==> |q.value.value| <= MAX_VALUE)
      modifies this
      ensures Valid() && Stepped(old(Attrs()), q, e, Attrs())
      ensures Check(old(Attrs()), q) == Ok ==>
        && Plan(Edited(old(Attrs()), q), plan, |Edited(old(Attrs()), q)|) && Packed(Edited(old(Attrs()), q), plan)
        && (e == NoSpace <==> |plan| > MAX_CHAIN || |abs| < |plan|)
      ensures e != Ok ==> unchanged(this)
    {
      plan := [];
      var kvs := Load();
      KeptNames(stored);
      var i := Index(kvs, q.name);
      if q.value.None? {
        if i == |kvs| { return ENODATA, []; }
        kvs := kvs[..i] + kvs[i+1..];
      } else if i < |kvs| {
        if q.create { return EEXIST, []; }
        kvs := kvs[i := KV(q.name, q.value.value)];
      } else {
        if q.replace { return ENODATA, []; }
        kvs := kvs + [KV(q.name, q.value.value)];
      }
      EditAllowed(Attrs(), q);
      EditDistinct(Attrs(), q);
      e, plan := Rewrite(kvs, abs);
    }

    /** The chain rewrite of setXattrLocked; an empty list clears the head. */
    method Rewrite(kvs: seq<KV>, abs: seq<nat>) returns (e: Errno, ghost plan: seq<Desc>)
      requires Valid() && Separate(abs) && Allowed(kvs) && DistinctNames(kvs)
      modifies this
      ensures Valid() && Plan(kvs, plan, |kvs|) && Packed(kvs, plan)
      ensures e == if |plan| > MAX_CHAIN || |abs| < |plan| then NoSpace else Ok
      ensures if e == Ok then Attrs() == KeptAll(kvs) else unchanged(this)
    {
      hide Rendered, BlockOk, Packed, DistinctNames, Allowed;
      var built;
      built, plan := BuildXattrChain(kvs);
      if built.ENOSPC? || |abs| < |built.descs| { return NoSpace, plan; }
      var ds := built.descs;
      var d, bs := WriteChain(kvs, ds, abs[..|ds|], dev);
      dev, head := d, if ds == [] then 0 else abs[0];
      stored, descs, chain, blocks := kvs, ds, abs[..|ds|], bs;
      e := Ok;
    }

    /** Every history of requests, with any blocks from the allocator. */
    method Run(reqs: seq<Request>) returns (errs: seq<Errno>, ghost trace: seq<seq<KV>>)
      requires Valid()
      modifies this
      ensures Valid() && History(trace, reqs, errs) && trace[0] == old(Attrs()) && trace[|reqs|] == Attrs()
      ensures forall name :: Lookup(Attrs(), name) == LastValue(Lookup(old(Attrs()), name), reqs, errs, name)
    {
      Reads();
      errs, trace := [], [Attrs()];
      for i := 0 to |reqs|
        invariant Valid() && History(trace, reqs[..i], errs) && trace[0] == old(Attrs()) && trace[i] == Attrs()
      {
        var abs := Grant();
        var e, _ := Set(reqs[i], abs);
        Extended(trace, reqs, i, errs, e, Attrs());
        errs, trace := errs + [e], trace + [Attrs()];
      }
      assert reqs[..|reqs|] == reqs;
      forall name ensures Lookup(Attrs(), name) == LastValue(Lookup(old(Attrs()), name), reqs, errs, name) {
        LastRequestWins(trace, reqs, errs, name);
      }
    }
  }

  /** The allocator may give any distinct blocks. */
  method Grant() returns (abs: seq<nat>)
    ensures Separate(abs)
  {
    assert Separate([]);
    abs :| Separate(abs);
  }

  lemma Extended(trace: seq<seq<KV>>, reqs: seq<Request>, n: nat, errs: seq<Errno>, e: Errno, kvs: seq<KV>)
    requires n < |reqs| && History(trace, reqs[..n], errs) && Stepped(trace[n], reqs[n], e, kvs)
    ensures History(trace + [kvs], reqs[..n+1], errs + [e])
  {
    hide Stepped;
    var trace', errs' := trace + [kvs], errs + [e];
    forall k | 0 <= k < n + 1 ensures Stepped(trace'[k], reqs[..n+1][k], errs'[k], trace'[k+1]) {
      if k < n { assert Stepped(trace[k], reqs[..n][k], errs[k], trace[k+1]); }
    }
  }
}
