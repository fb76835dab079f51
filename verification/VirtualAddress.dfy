/** Virtual addresses: the page number and the four table indices that 4-level paging takes from them. */
module VirtualAddress {

  /** Virtual bits 12 to 47. */
  function Page(virt: nat): nat {
    (virt / 0x1000) % 0x10_0000_0000
  }

  /** Bits 39-47, 30-38, 21-29 and 12-20. */
  function Path(virt: nat): (p: seq<nat>)
    ensures |p| == 4 && forall k :: 0 <= k < 4 ==> p[k] < 512
  {
    [(virt / 0x80_0000_0000) % 512, (virt / 0x4000_0000) % 512, (virt / 0x20_0000) % 512, (virt / 0x1000) % 512]
  }

  lemma Shift(virt: nat)
    ensures virt / 0x20_0000 == (virt / 0x1000) / 512
    ensures virt / 0x4000_0000 == (virt / 0x20_0000) / 512
    ensures virt / 0x80_0000_0000 == (virt / 0x4000_0000) / 512
  {
  }

  lemma Digits(w: nat, x: nat, y: nat, z: nat)
    requires x == w / 512 && y == x / 512 && z == y / 512
    ensures w % 0x10_0000_0000 == (z % 512) * 0x800_0000 + (y % 512) * 0x4_0000 + (x % 512) * 0x200 + w % 512
  {
    var k, d := z / 512, (z % 512) * 0x800_0000 + (y % 512) * 0x4_0000 + (x % 512) * 0x200 + w % 512;
    assert w == k * 0x10_0000_0000 + d;
    assert 0 <= d < 0x10_0000_0000;
    Remainder(w, k, d);
  }

  lemma Remainder(w: nat, k: nat, d: nat)
    requires w == k * 0x10_0000_0000 + d && d < 0x10_0000_0000
    ensures w % 0x10_0000_0000 == d
  {
  }

  lemma PageDigits(virt: nat)
    ensures var p := Path(virt);
      Page(virt) == p[0] * 0x800_0000 + p[1] * 0x4_0000 + p[2] * 0x200 + p[3]
  {
    Shift(virt);
    Digits(virt / 0x1000, virt / 0x20_0000, virt / 0x4000_0000, virt / 0x80_0000_0000);
  }

  lemma DigitsUnique(a: nat, b: nat, c: nat, d: nat, e: nat, f: nat, g: nat, h: nat)
    requires a < 512 && b < 512 && c < 512 && d < 512 && e < 512 && f < 512 && g < 512 && h < 512
    requires a * 0x800_0000 + b * 0x4_0000 + c * 0x200 + d == e * 0x800_0000 + f * 0x4_0000 + g * 0x200 + h
    ensures a == e && b == f && c == g && d == h
  {
  }

  /** The four table indices determine the page number and nothing more. */
  lemma PathIsPage(v: nat, w: nat)
    ensures Path(v) == Path(w) <==> Page(v) == Page(w)
  {
    hide Path, Page;
    PageDigits(v);
    PageDigits(w);
    var p, q := Path(v), Path(w);
    if Page(v) == Page(w) {
      DigitsUnique(p[0], p[1], p[2], p[3], q[0], q[1], q[2], q[3]);
    }
  }

  /** The pages needed for `size` bytes. */
  function PageCount(size: nat): (n: nat)
    ensures size <= n * 0x1000 < size + 0x1000
  {
    (size + 0xFFF) / 0x1000
  }

  /** The address `i` pages on. */
  function At(base: nat, i: nat): nat {
    base + i * 0x1000
  }

  /** Fewer than 2^36 pages from an address on are all different. */
  lemma PagesDistinct(base: nat, j: nat, k: nat)
    requires j < k < j + 0x10_0000_0000
    ensures Page(At(base, j)) != Page(At(base, k))
  {
    assert At(base, j) / 0x1000 == base / 0x1000 + j;
    assert At(base, k) / 0x1000 == base / 0x1000 + k;
  }
}
