/** The offset of a virtual address in its page, as a 64-bit word. */
module PageOffset {
  import Bits

  function Six(o: nat): bv6
    requires o < 64
  {
    o as bv6
  }

  function Offset(virt: nat): bv64 {
    Glue(Six(virt / 64 % 64), Six(virt % 64))
  }

  function Glue(high: bv6, low: bv6): bv64 {
    ((high as bv64) << 6) | (low as bv64)
  }

  lemma SixNumber(o: nat)
    requires o < 64
    ensures Six(o) as nat == o
  {
    Bits.IndexRoundTrip(o);
  }

  lemma GlueParts(high: bv6, low: bv6)
    ensures ((Glue(high, low) >> 6) & 63) as bv6 == high && (Glue(high, low) & 63) as bv6 == low
    ensures Glue(high, low) & !0xFFF == 0
  {
  }

  /** Joined to a page-aligned word, the offset is its low twelve bits, as a number. */
  lemma JoinParts(frame: bv64, virt: nat)
    requires frame & 0xFFF == 0
    ensures var r := frame | Offset(virt);
      && (((r >> 6) & 63) as bv6) as nat * 64 + ((r & 63) as bv6) as nat == virt % 4096
      && r & !0xFFF == frame
  {
    hide Six, Glue, Offset;
    var high, low := Six(virt / 64 % 64), Six(virt % 64);
    OffsetIs(virt);
    SixNumber(virt / 64 % 64);
    SixNumber(virt % 64);
    GlueParts(high, low);
    OrParts(frame, Glue(high, low));
    Split(virt);
  }

  lemma OffsetIs(virt: nat)
    ensures Offset(virt) == Glue(Six(virt / 64 % 64), Six(virt % 64))
  {
  }

  lemma OrParts(frame: bv64, g: bv64)
    requires frame & 0xFFF == 0 && g & !0xFFF == 0
    ensures ((frame | g) >> 6) & 63 == (g >> 6) & 63 && (frame | g) & 63 == g & 63 && (frame | g) & !0xFFF == frame
  {
  }

  lemma Split(virt: nat)
    ensures virt % 4096 == virt / 64 % 64 * 64 + virt % 64
  {
    var a, m := virt / 4096, virt % 4096;
    Digit(64 * a + m / 64, m % 64);
    Digit(a, m / 64);
  }

  lemma Digit(q: nat, r: nat)
    requires r < 64
    ensures (64 * q + r) / 64 == q && (64 * q + r) % 64 == r
  {
  }
}
