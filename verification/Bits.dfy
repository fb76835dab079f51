/** Single-bit reasoning about 64-bit words: the masks, scans and updates that both bitmap allocators use. */
module Bits {

  /** The word `1 << i`. */
  function Mask(i: bv6): bv64 {
    (1 as bv64) << i
  }

  predicate Bit(w: bv64, i: bv6) {
    w & Mask(i) != 0
  }

  function Raise(w: bv64, i: bv6): bv64 {
    w | Mask(i)
  }

  function Lower(w: bv64, i: bv6): bv64 {
    w & !Mask(i)
  }

  /** The complement of the bits below `s`. */
  function From(s: bv6): bv64 {
    !(Mask(s) - 1)
  }

  lemma IndexRoundTrip(i: nat)
    requires i < 64
    ensures (i as bv6) as nat == i
  {
  }

  lemma IndexOrder(a: bv6, b: bv6)
    ensures a <= b <==> a as nat <= b as nat
  {
  }

  lemma SetThis(w: bv64, i: bv6)
    ensures Bit(Raise(w, i), i)
  {
  }

  lemma ClearThis(w: bv64, i: bv6)
    ensures !Bit(Lower(w, i), i)
  {
  }

  lemma SetOtherRaw(w: bv64, i: bv6, j: bv6)
    requires i != j
    ensures Bit(w | Mask(i), j) <==> Bit(w, j)
  {
  }

  lemma SetOther(w: bv64, i: bv6, j: bv6)
    requires i != j
    ensures Bit(Raise(w, i), j) <==> Bit(w, j)
  {
    hide Bit, Mask;
    SetOtherRaw(w, i, j);
  }

  lemma ClearOtherRaw(w: bv64, i: bv6, j: bv6)
    requires i != j
    ensures Bit(w & !Mask(i), j) <==> Bit(w, j)
  {
  }

  lemma ClearOther(w: bv64, i: bv6, j: bv6)
    requires i != j
    ensures Bit(Lower(w, i), j) <==> Bit(w, j)
  {
    hide Bit, Mask;
    ClearOtherRaw(w, i, j);
  }

  lemma LowMask(s: bv6, b: bv6)
    ensures Bit(From(s), b) <==> s <= b
  {
  }

  lemma NotBit(w: bv64, b: bv6)
    ensures Bit(!w, b) <==> !Bit(w, b)
  {
  }

  lemma AndBit(w: bv64, v: bv64, b: bv6)
    ensures Bit(w & v, b) <==> Bit(w, b) && Bit(v, b)
  {
  }

  /** Bit `j` of the scanner's masked word is set exactly when `j >= s` and bit `j` of `w` is clear. */
  lemma MaskedFree(w: bv64, s: bv6, j: bv6)
    ensures Bit(!w & From(s), j) <==> s <= j && !Bit(w, j)
  {
    hide *;
    LowMask(s, j);
    NotBit(w, j);
    AndBit(!w, From(s), j);
  }

  predicate LowZero(w: bv64, b: bv6) {
    w & (Mask(b) - 1) == 0
  }

  lemma LowStart(w: bv64)
    ensures LowZero(w, 0)
  {
  }

  lemma LowStep(w: bv64, b: bv6)
    requires b > 0
    requires LowZero(w, b - 1) && !Bit(w, b - 1)
    ensures LowZero(w, b)
  {
  }

  lemma TopStep(w: bv64)
    requires LowZero(w, 63) && !Bit(w, 63)
    ensures w == 0
  {
  }

  lemma {:induction false} LowClear(w: bv64, k: bv6)
    requires forall j: bv6 :: j < k ==> !Bit(w, j)
    ensures LowZero(w, k)
    decreases k as nat
  {
    hide *;
    if k == 0 {
      LowStart(w);
    } else {
      assert (k - 1) as nat < k as nat;
      LowClear(w, k - 1);
      LowStep(w, k);
    }
  }

  /** A word with every bit clear is zero. */
  lemma AllClear(w: bv64)
    requires forall j: bv6 :: !Bit(w, j)
    ensures w == 0
  {
    hide *;
    LowClear(w, 63);
    TopStep(w);
  }

  function LowestSetFrom(w: bv64, k: bv6): bv6
    decreases 63 - k as nat
  {
    if k == 63 || Bit(w, k) then k else LowestSetFrom(w, k + 1)
  }

  /** `trailing_zeros` of a non-zero word. */
  function TrailingZeros(w: bv64): bv6 {
    LowestSetFrom(w, 0)
  }

  lemma {:induction false} LowestSetFromIsLeast(w: bv64, k: bv6)
    ensures k <= LowestSetFrom(w, k)
    ensures Bit(w, LowestSetFrom(w, k)) || LowestSetFrom(w, k) == 63
    ensures forall j: bv6 :: k <= j < LowestSetFrom(w, k) ==> !Bit(w, j)
    decreases 63 - k as nat
  {
    hide Bit;
    if k != 63 && !Bit(w, k) {
      LowestSetFromIsLeast(w, k + 1);
    }
  }

  /** On a non-zero word the scan stops at its lowest set bit. */
  lemma TrailingZerosIsLowest(w: bv64)
    requires w != 0
    ensures Bit(w, TrailingZeros(w))
    ensures forall j: bv6 :: j < TrailingZeros(w) ==> !Bit(w, j)
  {
    hide Bit;
    LowestSetFromIsLeast(w, 0);
    if !Bit(w, TrailingZeros(w)) {
      AllClear(w);
    }
  }
}
