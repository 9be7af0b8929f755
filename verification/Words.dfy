/** 64-bit allocator words as sets of bit positions, with the operations of math/bits that the
    allocator uses (briefs/allocator_core.go, fuse/fs.go). */
module Words {
  type Word = set<nat>

  predicate IsWord(w: Word) {
    forall b :: b in w ==> b < 64
  }

  predicate Between(lo: nat, hi: nat, b: nat) {
    lo <= b < hi && b < 64
  }

  /** ^0 with the bits below lo cleared, masked to the bits below hi. */
  function Mask(lo: nat, hi: nat): (r: Word)
    ensures forall b: nat :: b in r <==> Between(lo, hi, b)
  {
    set b: nat | b < 64 && Between(lo, hi, b)
  }

  predicate Has(w: Word, b: nat) {
    b in w
  }

  /** ^w. */
  function Not(w: Word): (r: Word)
    ensures forall b: nat :: b in r <==> b < 64 && !Has(w, b)
  {
    set b: nat | b < 64 && !Has(w, b)
  }

  predicate HasAbove(w: Word, s: nat, b: nat) {
    b + s in w
  }

  /** w >> s. */
  function ShiftRight(w: Word, s: nat): (r: Word)
    ensures forall b: nat :: b in r <==> b < 64 && HasAbove(w, s, b)
  {
    set b: nat | b < 64 && HasAbove(w, s, b)
  }

  function FirstFrom(w: Word, i: nat): (r: nat)
    requires i <= 64
    ensures i <= r <= 64 && (forall b: nat :: i <= b < r ==> b !in w)
    ensures r < 64 ==> r in w
    decreases 64 - i
  {
    if i == 64 || i in w then i else FirstFrom(w, i + 1)
  }

  /** bits.TrailingZeros64: the lowest set bit, 64 for an empty word. */
  function TrailingZeros(w: Word): (r: nat)
    ensures r <= 64 && (forall b: nat :: b < r ==> b !in w)
    ensures r < 64 ==> r in w
  {
    FirstFrom(w, 0)
  }

  lemma LowestBit(w: Word)
    requires IsWord(w) && w != {}
    ensures TrailingZeros(w) < 64
  {
    var b :| b in w;
    assert b < 64;
  }

  /** bits.TrailingZeros64(^(w >> b)): how many bits in a row are set from b. */
  lemma RunLength(w: Word, b: nat)
    requires IsWord(w) && b in w
    ensures var n := TrailingZeros(Not(ShiftRight(w, b)));
      1 <= n && b + n <= 64 && (forall i: nat :: b <= i < b + n ==> i in w) && b + n !in w
  {
    var u := ShiftRight(w, b);
    var v := Not(u);
    var n := TrailingZeros(v);
    assert HasAbove(w, b, 0) && 0 in u && !Has(v, 0);
    assert b > 0 ==> 64 - b !in u && 64 - b in v;
    forall i: nat | b <= i < b + n ensures i in w {
      assert i - b !in v;
      assert Has(u, i - b);
      assert HasAbove(w, b, i - b);
    }
    if n < 64 {
      assert n in v && !Has(u, n);
      assert !HasAbove(w, b, n);
    }
  }
}
