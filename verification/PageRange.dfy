/** `map_range` and `unmap_range`: what the two loops do to the flat map, page by page. */
module PageRange {
  import opened Options
  import opened PageEntry
  import opened VirtualAddress
  import opened Paging
  import opened FlatPaging
  import opened PagingHistory

  const PAGES: nat := 0x10_0000_0000
  const U64: nat := 0x1_0000_0000_0000_0000

  /** How many pages from `x` on start below 2^64. */
  function PagesFrom(x: nat): nat {
    if x < 0x1_0000_0000_0000_0000 then (0x1_0000_0000_0000_0000 - x + 4095) / 4096 else 0
  }

  /** The rounds of a range loop over `size` bytes before an address overflows; none if rounding the size does. */
  function RoundsDone(virt: nat, phys: nat, size: nat): (n: nat)
    ensures n <= PageCount(size)
  {
    if size + 4095 >= U64 then 0
    else
      var n := PageCount(size);
      var a, b := PagesFrom(virt), PagesFrom(phys);
      if n <= a && n <= b then n else if a <= b then a else b
  }

  lemma PagesFromIff(x: nat, i: nat)
    ensures At(x, i) < 0x1_0000_0000_0000_0000 <==> i < PagesFrom(x)
  {
  }

  /** The loop does its rounds up to the first whose address does not fit 64 bits, and none if rounding does not. */
  lemma RoundsDoneIff(virt: nat, phys: nat, size: nat, i: nat)
    ensures i < RoundsDone(virt, phys, size) <==>
      size + 4095 < 0x1_0000_0000_0000_0000 && i < PageCount(size)
      && virt + i * 4096 < 0x1_0000_0000_0000_0000 && phys + i * 4096 < 0x1_0000_0000_0000_0000
  {
    hide PagesFrom;
    PagesFromIff(virt, i);
    PagesFromIff(phys, i);
  }

  /** A round number as a 64-bit word. */
  function Wide(i: nat): bv64 {
    if i == 0 then 0 else Wide(i - 1) + 1
  }

  /** The physical address of round `i`. */
  function PhysAt(phys: bv64, i: nat): bv64 {
    PhysPlus(phys, Wide(i))
  }

  /** Round 0 maps the address given, and each round the next page. */
  lemma PhysAdvances(phys: bv64, i: nat)
    ensures PhysAt(phys, 0) == phys && PhysAt(phys, i + 1) == PhysAt(phys, i) + 4096
  {
    hide *;
    PhysAtIs(phys, 0);
    PhysAtIs(phys, i);
    PhysAtIs(phys, i + 1);
    WideSteps(i);
    NextPage(phys, Wide(i), Wide(i + 1));
  }

  lemma WideSteps(i: nat)
    ensures Wide(0) == 0 && Wide(i + 1) == Wide(i) + 1
  {
  }

  lemma PhysAtIs(phys: bv64, i: nat)
    ensures PhysAt(phys, i) == PhysPlus(phys, Wide(i))
  {
  }

  lemma NextPage(phys: bv64, x: bv64, y: bv64)
    requires y == x + 1
    ensures PhysPlus(phys, y) == PhysPlus(phys, x) + 4096 && PhysPlus(phys, 0) == phys
  {
  }

  function PhysPlus(phys: bv64, x: bv64): bv64 {
    phys + x * 4096
  }

  function FramePlus(phys: bv64, x: bv64): bv64 {
    (((phys >> 12) + x) & 0xF_FFFF_FFFF) << 12
  }

  /** The calls made by the first `n` rounds of `map_range`; `boxes(i)` feeds round `i`. */
  function MapOps(virt: nat, phys: bv64, flags: bv64, boxes: nat -> Boxes, n: nat): seq<Op>
  {
    if n == 0 then [] else
      MapOps(virt, phys, flags, boxes, n - 1) + [Map(At(virt, n - 1), PhysAt(phys, n - 1), flags, boxes(n - 1))]
  }

  function UnmapOps(virt: nat, n: nat): seq<Op> {
    if n == 0 then [] else UnmapOps(virt, n - 1) + [Unmap(At(virt, n - 1))]
  }

  /** The first round of the loop that visits page `q`, counting pages modulo 2^36. */
  function Round(virt: nat, q: nat): nat
    requires q < PAGES
  {
    if Page(virt) <= q then q - Page(virt) else q + PAGES - Page(virt)
  }

  /** Page `q` is one of the first `n` pages from `virt` on. */
  predicate Visits(virt: nat, n: nat, q: nat) {
    q < PAGES && Round(virt, q) < n
  }

  /** The last of the first `n` rounds that visits page `q`: after 2^36 rounds the pages come round again. */
  function LastRound(virt: nat, n: nat, q: nat): (i: nat)
    requires Visits(virt, n, q)
    ensures i < n
  {
    n - 1 - (n - 1 - Round(virt, q)) % 0x10_0000_0000
  }

  lemma RoundVisits(virt: nat, q: nat, i: nat)
    requires q < PAGES
    ensures Page(At(virt, i)) == q <==> i % 0x10_0000_0000 == Round(virt, q)
  {
    assert At(virt, i) / 4096 == virt / 4096 + i;
    AddMod(virt / 4096, i);
    Cyclic(Page(virt), i % 0x10_0000_0000, q);
  }

  lemma AddMod(x: nat, i: nat)
    ensures (x + i) % 0x10_0000_0000 == (x % 0x10_0000_0000 + i % 0x10_0000_0000) % 0x10_0000_0000
  {
  }

  lemma Cyclic(p: nat, i: nat, q: nat)
    requires p < PAGES && i < PAGES && q < PAGES
    ensures (p + i) % 0x10_0000_0000 == q <==> i == if p <= q then q - p else q + PAGES - p
  {
  }

  /** One more round: it visits `q`, or the last visit is the one before. */
  lemma LastRoundStep(virt: nat, i: nat, q: nat)
    requires q < PAGES
    ensures Page(At(virt, i)) == q ==> Visits(virt, i + 1, q) && LastRound(virt, i + 1, q) == i
    ensures Page(At(virt, i)) != q ==> (Visits(virt, i + 1, q) <==> Visits(virt, i, q))
    ensures Page(At(virt, i)) != q && Visits(virt, i, q) ==> LastRound(virt, i + 1, q) == LastRound(virt, i, q)
  {
    hide VirtualAddress.Page, VirtualAddress.At, Round;
    RoundVisits(virt, q, i);
    RoundBound(virt, q);
    LastStep(Round(virt, q), i);
  }

  lemma RoundBound(virt: nat, q: nat)
    requires q < PAGES
    ensures Round(virt, q) < PAGES
  {
  }

  lemma LastStep(r: nat, i: nat)
    requires r < PAGES
    ensures i % 0x10_0000_0000 == r ==> r <= i && (i - r) % 0x10_0000_0000 == 0
    ensures i % 0x10_0000_0000 != r ==> i != r
    ensures i % 0x10_0000_0000 != r && r < i ==> i - (i - r) % 0x10_0000_0000 == i - 1 - (i - 1 - r) % 0x10_0000_0000
  {
  }

  /** The mapping of page `i` of the range: frame number `phys / 4096 + i` modulo 2^36, and the flags. */
  function Target(phys: bv64, flags: bv64, i: nat): Option<Mapping>
  {
    if Present(flags) then Some(Mapping(FrameAt(phys, i), Flags(flags))) else None
  }

  function FrameAt(phys: bv64, i: nat): bv64
  {
    FramePlus(phys, Wide(i))
  }

  lemma RawFrame(phys: bv64, i: bv64)
    ensures Frame(PhysPlus(phys, i)) == FramePlus(phys, i)
  {
  }

  lemma FrameAdvances(phys: bv64, i: nat)
    ensures Frame(PhysAt(phys, i)) == FrameAt(phys, i)
  {
    hide PageEntry.Frame, Wide, PhysPlus, FramePlus;
    RawFrame(phys, Wide(i));
  }

  lemma Snoc(m: Flat, ops: seq<Op>, op: Op)
    ensures FlatRun(m, ops + [op]) == FlatStep(FlatRun(m, ops), op)
  {
    assert (ops + [op])[..|ops|] == ops;
  }

  lemma {:induction false} MapRangeFlat(m: Flat, virt: nat, phys: bv64, flags: bv64, boxes: nat -> Boxes, n: nat,
      q: nat)
    ensures Get(FlatRun(m, MapOps(virt, phys, flags, boxes, n)), q) ==
      if Visits(virt, n, q) then Target(phys, flags, LastRound(virt, n, q)) else Get(m, q)
  {
    hide VirtualAddress.Page, PageEntry.Frame, PageEntry.Flags, PageEntry.Present, FrameAt, PhysAt, VirtualAddress.At,
        FlatRun, Visits, LastRound;
    if n == 0 {
      NoVisit(virt, q);
      assert FlatRun(m, []) == m by { RunNothing(m); }
    } else {
      var i := n - 1;
      MapRangeFlat(m, virt, phys, flags, boxes, i, q);
      Snoc(m, MapOps(virt, phys, flags, boxes, i), Map(At(virt, i), PhysAt(phys, i), flags, boxes(i)));
      PageBound(At(virt, i));
      if q < PAGES { LastRoundStep(virt, i, q); } else { VisitsBound(virt, n, q); VisitsBound(virt, i, q); }
      FrameAdvances(phys, i);
    }
  }

  lemma NoVisit(virt: nat, q: nat)
    ensures !Visits(virt, 0, q)
  {
  }

  lemma VisitsBound(virt: nat, n: nat, q: nat)
    ensures Visits(virt, n, q) ==> q < PAGES
  {
  }

  lemma PageBound(virt: nat)
    ensures Page(virt) < PAGES
  {
  }

  lemma RunNothing(m: Flat)
    ensures FlatRun(m, []) == m
  {
  }

  lemma {:induction false} UnmapRangeFlat(m: Flat, virt: nat, n: nat, q: nat)
    ensures Get(FlatRun(m, UnmapOps(virt, n)), q) == if Visits(virt, n, q) then None else Get(m, q)
  {
    hide VirtualAddress.Page, VirtualAddress.At, FlatRun, Visits, LastRound;
    if n == 0 {
      NoVisit(virt, q);
      RunNothing(m);
    } else {
      UnmapRangeFlat(m, virt, n - 1, q);
      Snoc(m, UnmapOps(virt, n - 1), Unmap(At(virt, n - 1)));
      PageBound(At(virt, n - 1));
      if q < PAGES { LastRoundStep(virt, n - 1, q); } else { VisitsBound(virt, n, q); VisitsBound(virt, n - 1, q); }
    }
  }

  /** Without wrap-around past 2^48, page `i` of the range is page number `Page(virt) + i`. */
  lemma PagesInOrder(virt: nat, n: nat, i: nat)
    requires Page(virt) + n <= PAGES && i < n
    ensures Page(At(virt, i)) == Page(virt) + i
    ensures Visits(virt, n, Page(virt) + i) && Round(virt, Page(virt) + i) == i
  {
    assert At(virt, i) / 4096 == virt / 4096 + i;
  }

  /** The first `n` rounds of `map_range` map exactly the pages they visit, and leave every other translation alone. */
  lemma MapRangeTranslates(t: Space, m: Flat, virt: nat, phys: bv64, flags: bv64, boxes: nat -> Boxes, n: nat, v: nat)
    requires Sound(t) && Agrees(t, m) && Present(flags)
    requires Permitted(t, MapOps(virt, phys, flags, boxes, n))
    ensures var u, q := Run(t, MapOps(virt, phys, flags, boxes, n)), Page(v);
      if Visits(virt, n, q) then
        Translate(u, v).Some? && Parts(Translate(u, v).value, v, PhysAt(phys, LastRound(virt, n, q)))
      else Translate(u, v) == Translate(t, v)
  {
    hide Sound, Agrees, Permitted, Run, FlatRun, MapOps, Translate, VirtualAddress.Page, PageEntry.Join, FrameAt,
        PhysAt,
        PageEntry.Present, PageEntry.Flags, PageEntry.Frame, Parts, Visits, LastRound;
    var ops := MapOps(virt, phys, flags, boxes, n);
    RunAgrees(t, m, ops);
    AgreesReads(t, m, v);
    AgreesReads(Run(t, ops), FlatRun(m, ops), v);
    MapRangeFlat(m, virt, phys, flags, boxes, n, Page(v));
    if Visits(virt, n, Page(v)) {
      FrameAdvances(phys, LastRound(virt, n, Page(v)));
      FlatParts(FlatRun(m, ops), v, PhysAt(phys, LastRound(virt, n, Page(v))));
    }
  }

  /** On pages that began unmapped, `unmap_range` undoes as many rounds of `map_range` exactly. */
  lemma UnmapRangeUndoes(m: Flat, virt: nat, phys: bv64, flags: bv64, boxes: nat -> Boxes, n: nat)
    requires forall q :: Visits(virt, n, q) ==> q !in m
    ensures FlatRun(FlatRun(m, MapOps(virt, phys, flags, boxes, n)), UnmapOps(virt, n)) == m
  {
    hide FlatRun, MapOps, UnmapOps, VirtualAddress.Page, Visits, LastRound, Target;
    var mapped := FlatRun(m, MapOps(virt, phys, flags, boxes, n));
    var after := FlatRun(mapped, UnmapOps(virt, n));
    forall q: nat ensures Get(after, q) == Get(m, q) {
      MapRangeFlat(m, virt, phys, flags, boxes, n, q);
      UnmapRangeFlat(mapped, virt, n, q);
    }
    SameGets(after, m);
  }

  lemma SameGets(m: Flat, k: Flat)
    requires forall q: nat :: Get(m, q) == Get(k, q)
    ensures m == k
  {
    assert forall q :: q in m <==> Get(m, q).Some?;
    assert forall q :: q in k <==> Get(k, q).Some?;
    assert forall q :: q in m ==> Get(m, q) == Get(k, q);
  }
}
