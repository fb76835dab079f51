/** A bitmap of 64-bit words read as a set of numbers. */
module Bitmap {
  import opened Options
  import opened Bits

  function Index(j: nat): bv6
    requires j < 64
  {
    j as bv6
  }

  lemma IndexBack(j: nat)
    requires j < 64
    ensures Index(j) as nat == j
  {
    IndexRoundTrip(j);
  }

  /** Bit `j` of a word, by its number. */
  predicate BitOf(w: bv64, j: nat)
    requires j < 64
  {
    Bit(w, Index(j))
  }

  function SetIn(w: bv64, j: nat): bv64
    requires j < 64
  {
    Raise(w, Index(j))
  }

  function ClearIn(w: bv64, j: nat): bv64
    requires j < 64
  {
    Lower(w, Index(j))
  }

  lemma IndexDiffers(i: nat, j: nat)
    requires i < 64 && j < 64 && i != j
    ensures Index(i) != Index(j)
  {
    hide Index;
    IndexBack(i);
    IndexBack(j);
  }

  /** Setting or clearing bit `i` of a word changes that bit and no other. */
  lemma UpdateBit(w: bv64, i: nat, j: nat)
    requires i < 64 && j < 64
    ensures BitOf(SetIn(w, i), j) <==> i == j || BitOf(w, j)
    ensures BitOf(ClearIn(w, i), j) <==> i != j && BitOf(w, j)
  {
    hide Index, Bits.Bit, Bits.Raise, Bits.Lower, Bits.From;
    if i == j {
      SetThis(w, Index(i));
      ClearThis(w, Index(i));
    } else {
      IndexDiffers(i, j);
      SetOther(w, Index(i), Index(j));
      ClearOther(w, Index(i), Index(j));
    }
  }

  /** The scanner's mask for bits `s` and up. */
  function FromBit(s: nat): bv64
    requires s < 64
  {
    From(Index(s))
  }

  lemma FromZero()
    ensures FromBit(0) == 0xFFFF_FFFF_FFFF_FFFF
  {
  }

  lemma FreeBit(w: bv64, s: nat, j: nat)
    requires s < 64 && j < 64
    ensures Bit(!w & FromBit(s), Index(j)) <==> s <= j && !BitOf(w, j)
  {
    hide Index, Bits.Bit, Bits.Raise, Bits.Lower, Bits.From;
    MaskedFree(w, Index(s), Index(j));
    IndexBack(s);
    IndexBack(j);
    IndexOrder(Index(s), Index(j));
  }

  /** The lowest bit that is clear in `word` and set in `mask`. */
  function FirstHit(word: bv64, mask: bv64): Option<nat> {
    var masked := !word & mask;
    if masked != 0 then Some(TrailingZeros(masked) as nat) else None
  }

  /** With the mask for bits `s` and up, the hit is the lowest clear bit from `s` on. */
  lemma WordScan(w: bv64, s: nat)
    requires s < 64
    ensures match FirstHit(w, FromBit(s))
      case None => forall j: nat :: s <= j < 64 ==> BitOf(w, j)
      case Some(t) => s <= t < 64 && !BitOf(w, t) && forall j: nat :: s <= j < t ==> BitOf(w, j)
  {
    hide Index, Bits.Bit, Bits.TrailingZeros, FromBit;
    var m := !w & FromBit(s);
    if m == 0 {
      forall j: nat | s <= j < 64 ensures BitOf(w, j) {
        ZeroBit(Index(j));
        FreeBit(w, s, j);
      }
    } else {
      TrailingZerosIsLowest(m);
      var b := TrailingZeros(m);
      var t := b as nat;
      CastBack(b);
      FreeBit(w, s, t);
      forall j: nat | s <= j < t ensures BitOf(w, j) {
        IndexBack(j);
        IndexOrder(b, Index(j));
        FreeBit(w, s, j);
      }
    }
  }

  lemma ZeroBit(b: bv6)
    ensures !Bit(0, b)
  {
  }

  lemma CastBack(b: bv6)
    ensures b as nat < 64 && Index(b as nat) == b
  {
  }

  lemma XorBit(v: bv64, w: bv64, b: bv6)
    ensures Bit(v ^ w, b) <==> Bit(v, b) != Bit(w, b)
  {
  }

  lemma XorZero(v: bv64, w: bv64)
    requires v ^ w == 0
    ensures v == w
  {
  }

  /** Words with the same bits are equal. */
  lemma WordsEqual(v: bv64, w: bv64)
    requires forall j: nat :: j < 64 ==> (BitOf(v, j) <==> BitOf(w, j))
    ensures v == w
  {
    hide Index, Bits.Bit;
    var x := v ^ w;
    forall b: bv6 ensures !Bit(x, b) {
      CastBack(b);
      XorBit(v, w, b);
      assert BitOf(v, b as nat) <==> BitOf(w, b as nat);
    }
    AllClear(x);
    XorZero(v, w);
  }

  lemma FullBit(b: bv6)
    ensures Bit(0xFFFF_FFFF_FFFF_FFFF, b)
  {
  }

  /** A word is all ones exactly when all its bits are set. */
  lemma FullWord(w: bv64)
    ensures w == 0xFFFF_FFFF_FFFF_FFFF <==> forall j: nat :: j < 64 ==> BitOf(w, j)
  {
    hide Index, Bits.Bit;
    forall j: nat | j < 64 ensures BitOf(0xFFFF_FFFF_FFFF_FFFF, j) {
      FullBit(Index(j));
    }
    if forall j: nat :: j < 64 ==> BitOf(w, j) {
      WordsEqual(w, 0xFFFF_FFFF_FFFF_FFFF);
    }
  }

  // ---------- Sequences of words

  predicate Get(ws: seq<bv64>, f: nat)
    requires f < 64 * |ws|
  {
    BitOf(ws[f / 64], f % 64)
  }

  function Set(ws: seq<bv64>, f: nat): seq<bv64>
    requires f < 64 * |ws|
  {
    ws[f / 64 := SetIn(ws[f / 64], f % 64)]
  }

  function Clear(ws: seq<bv64>, f: nat): seq<bv64>
    requires f < 64 * |ws|
  {
    ws[f / 64 := ClearIn(ws[f / 64], f % 64)]
  }

  lemma UpdateGet(ws: seq<bv64>, f: nat, g: nat)
    requires f < 64 * |ws| && g < 64 * |ws|
    ensures Get(Set(ws, f), g) <==> f == g || Get(ws, g)
    ensures Get(Clear(ws, f), g) <==> f != g && Get(ws, g)
  {
    hide BitOf, SetIn, ClearIn;
    if f / 64 == g / 64 {
      UpdateBit(ws[f / 64], f % 64, g % 64);
    }
  }

  function WordCount(total: nat): nat {
    (total + 63) / 64
  }

  /** The words hold exactly the set `taken` of frames below `total`, and every padding bit is clear. */
  ghost predicate Represents(ws: seq<bv64>, total: nat, taken: set<nat>) {
    && |ws| == WordCount(total)
    && (forall f :: f in taken ==> f < total)
    && (forall f: nat :: f < 64 * |ws| ==> (Get(ws, f) <==> f in taken))
  }

  lemma SetRepresents(ws: seq<bv64>, total: nat, taken: set<nat>, f: nat)
    requires Represents(ws, total, taken) && f < total
    ensures Represents(Set(ws, f), total, taken + {f})
  {
    hide Get, Set;
    SetLength(ws, f);
    forall g: nat | g < 64 * |ws| ensures Get(Set(ws, f), g) <==> g in taken + {f} {
      UpdateGet(ws, f, g);
    }
  }

  lemma ClearRepresents(ws: seq<bv64>, total: nat, taken: set<nat>, f: nat)
    requires Represents(ws, total, taken) && f < total
    ensures Represents(Clear(ws, f), total, taken - {f})
  {
    hide Get, Clear;
    SetLength(ws, f);
    forall g: nat | g < 64 * |ws| ensures Get(Clear(ws, f), g) <==> g in taken - {f} {
      UpdateGet(ws, f, g);
    }
  }

  lemma SetLength(ws: seq<bv64>, f: nat)
    requires f < 64 * |ws|
    ensures |Set(ws, f)| == |ws| && |Clear(ws, f)| == |ws|
  {
  }

  /** The set determines the words. */
  lemma RepresentsUnique(ws: seq<bv64>, vs: seq<bv64>, total: nat, taken: set<nat>)
    requires Represents(ws, total, taken) && Represents(vs, total, taken)
    ensures ws == vs
  {
    hide BitOf;
    forall i | 0 <= i < |ws| ensures ws[i] == vs[i] {
      forall j: nat | j < 64 ensures BitOf(ws[i], j) <==> BitOf(vs[i], j) {
        assert (64 * i + j) / 64 == i && (64 * i + j) % 64 == j;
        assert Get(ws, 64 * i + j) <==> Get(vs, 64 * i + j);
      }
      WordsEqual(ws[i], vs[i]);
    }
  }

  lemma ZeroRepresents(ws: seq<bv64>, total: nat)
    requires |ws| == WordCount(total) && forall i :: 0 <= i < |ws| ==> ws[i] == 0
    ensures Represents(ws, total, {})
  {
    hide BitOf;
    forall f: nat | f < 64 * |ws| ensures !Get(ws, f) {
      ZeroBitOf(f % 64);
    }
  }

  lemma ZeroBitOf(j: nat)
    requires j < 64
    ensures !BitOf(0, j)
  {
    hide Index;
    ZeroBit(Index(j));
  }
}
