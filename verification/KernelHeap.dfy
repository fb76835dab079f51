/**
  The kernel heap of src/memory/heap.rs over its free lists as values, with the byte counters. Memory holds these lists
  as long as no record is written over another one; `Clear` says when an operation writes none.
 */
module KernelHeap {
  import opened Options
  import opened FreeLists
  import opened FreeRecords

  /** The alignment of a layout is a power of two, so at least one. */
  datatype Layout = Layout(size: nat, align: nat)

  /**
    `live` lists the outstanding allocations, `waste` the bytes given away with unsplit blocks, `unsplit` the number
    of allocations served without a split and `initial` the size given to `init`; the heap stores none of the four.
   */
  datatype Heap = Heap(lists: Lists, total: nat, used: int, pages: nat, initialized: bool,
                       live: seq<Block>, waste: nat, unsplit: nat, initial: nat)

  function Max(a: nat, b: nat): nat {
    if a >= b then a else b
  }

  function RoundTo8(l: Layout): nat {
    (Max(l.size, l.align) + 7) / 8 * 8
  }

  function RoundToPage(l: Layout): nat {
    (Max(l.size, l.align) + 4095) / 4096 * 4096
  }

  function New(): Heap {
    Heap(seq(MAX_FREE_LISTS, _ => []), 0, 0, 0, false, [], 0, 0, 0)
  }

  /** `init`. */
  function Init(h: Heap, start: nat, size: nat): Heap {
    h.(lists := Insert(h.lists, start, size), total := size, initialized := true, initial := size)
  }

  /** `try_alloc_from_free_list`. */
  function TryAlloc(h: Heap, l: Layout): (Heap, Option<nat>)
    requires l.align > 0
  {
    var size := RoundTo8(l);
    match RemoveBestFit(h.lists, size, l.align)
    case (_, None) => (h, None)
    case (rest, Some(b)) =>
      var lost := if Splits(b, size) || b.size < size then 0 else b.size - size;
      (h.(lists := rest, used := h.used + size, live := h.live + [Block(b.addr, size)],
          waste := h.waste + lost, unsplit := h.unsplit + (if Splits(b, size) then 0 else 1)), Some(b.addr))
  }

  /** The heap with a stretch of whole pages added. */
  function Grown(h: Heap, ptr: nat, size: nat): Heap {
    h.(lists := Insert(h.lists, ptr, size), total := h.total + size, pages := h.pages + (size + 4095) / 4096)
  }

  /** `expand_heap`; `frames` is the answer of `alloc_pages`. */
  function Expand(h: Heap, l: Layout, frames: Option<nat>): (Heap, Option<nat>)
    requires l.align > 0
  {
    match frames
    case None => (h, None)
    case Some(ptr) =>
      var size := RoundToPage(l);
      TryAlloc(Grown(h, ptr, size), l)
  }

  /** `alloc`: a null pointer is the absent result. */
  function Alloc(h: Heap, l: Layout, frames: Option<nat>): (Heap, Option<nat>)
    requires l.align > 0
  {
    if !h.initialized then (h, None)
    else
      var (t, r) := TryAlloc(h, l);
      if r.Some? then (t, r) else Expand(h, l, frames)
  }

  /** `dealloc` of outstanding allocation number `k`, with the layout it was allocated with. */
  function Dealloc(h: Heap, ptr: nat, l: Layout, k: nat): Heap
    requires k < |h.live|
  {
    if !h.initialized then h
    else h.(used := h.used - RoundTo8(l), lists := Insert(h.lists, ptr, RoundTo8(l)),
      live := h.live[..k] + h.live[k + 1..])
  }

  /**
    Every byte is accounted for: in use, free, or given away with an unsplit block, at most 32 bytes each; and all
    bytes come from the initial stretch or from whole pages.
   */
  ghost predicate Inv(h: Heap) {
    && Classed(h.lists) && h.used == ListBytes(h.live)
    && h.used + FreeBytes(h.lists) + h.waste == h.total
    && h.waste <= 32 * h.unsplit
    && h.total == h.initial + 4096 * h.pages
    && (!h.initialized ==> h.total == 0 && h.live == [])
  }

  lemma {:induction false} EmptyBytes(lists: Lists)
    requires forall i :: 0 <= i < |lists| ==> lists[i] == []
    ensures FreeBytes(lists) == 0
  {
    if lists != [] {
      EmptyBytes(lists[1..]);
    }
  }

  lemma NewInv()
    ensures Inv(New())
  {
    EmptyBytes(New().lists);
  }

  lemma TryAllocKeeps(h: Heap, l: Layout)
    requires Inv(h) && l.align > 0 && h.initialized
    ensures var (t, r) := TryAlloc(h, l);
      && Inv(t) && t.total == h.total
      && (r == None <==> forall i, k ::
            0 <= i < |h.lists| && 0 <= k < |h.lists[i]| ==> !Fits(h.lists[i][k], RoundTo8(l), l.align))
      && (r == None ==> t == h)
      && (r.Some? ==> t.used == h.used + RoundTo8(l) && t.live == h.live + [Block(r.value, RoundTo8(l))])
  {
    hide Fits, Classed, FreeBytes, RemoveBestFit, RoundTo8;
    var size := RoundTo8(l);
    RemoveFailsIff(h.lists, size, l.align);
    RemoveKeeps(h.lists, size, l.align);
    if RemoveBestFit(h.lists, size, l.align).1.Some? {
      RemoveBytes(h.lists, size, l.align);
      var got := [Block(RemoveBestFit(h.lists, size, l.align).1.value.addr, size)];
      ListBytesSplit(h.live, got);
      assert ListBytes(got) == size;
    }
  }

  lemma ExpandKeeps(h: Heap, l: Layout, frames: Option<nat>)
    requires Inv(h) && l.align > 0 && h.initialized
    ensures Inv(Expand(h, l, frames).0)
  {
    hide Inv, TryAlloc, RoundToPage, Grown;
    if frames.Some? {
      WholePages(l);
      GrownInv(h, frames.value, RoundToPage(l));
      TryAllocKeeps(Grown(h, frames.value, RoundToPage(l)), l);
    }
  }

  lemma WholePages(l: Layout)
    ensures RoundToPage(l) % 4096 == 0
  {
  }

  lemma AllocKeeps(h: Heap, l: Layout, frames: Option<nat>)
    requires Inv(h) && l.align > 0
    ensures Inv(Alloc(h, l, frames).0)
  {
    hide Inv, TryAlloc, Expand;
    if h.initialized {
      TryAllocKeeps(h, l);
      ExpandKeeps(h, l, frames);
    }
  }

  /**
    A request takes the least multiple of 8 that holds its size and its alignment, and grows the heap by the least of
    4096.
   */
  lemma Rounded(l: Layout)
    ensures l.size <= RoundTo8(l) && l.align <= RoundTo8(l) && RoundTo8(l) % 8 == 0
    ensures RoundTo8(l) < l.size + 8 || RoundTo8(l) < l.align + 8
    ensures l.size <= RoundToPage(l) && l.align <= RoundToPage(l) && RoundToPage(l) % 4096 == 0
    ensures RoundToPage(l) < l.size + 4096 || RoundToPage(l) < l.align + 4096
  {
  }

  lemma RoundsFit(l: Layout)
    requires l.align > 0
    ensures 0 < RoundTo8(l) <= RoundToPage(l)
  {
  }

  lemma AlignedOffset(addr: nat, align: nat)
    requires align > 0 && addr % align == 0
    ensures Offset(addr, align) == 0
  {
    var q := addr / align;
    assert addr == q * align;
    Quotient(align, q);
  }

  lemma Quotient(align: nat, q: nat)
    requires align > 0
    ensures (q * align + align - 1) / align == q
  {
    var x := q * align + align - 1;
    var p, r := x / align, x % align;
    assert x == p * align + r;
    Between(align, p, q, r);
  }

  lemma Between(d: nat, p: nat, q: nat, r: nat)
    requires d > 0 && r < d && p * d + r == q * d + d - 1
    ensures p == q
  {
    var k := q - p;
    assert k * d == q * d - p * d;
    SmallMultiple(d, k);
  }

  lemma SmallMultiple(d: int, k: int)
    requires d > 0 && -d < k * d <= 0
    ensures k == 0
  {
  }

  /** When pages arrive aligned for the layout, an allocation on an initialised heap succeeds. */
  lemma AllocSucceeds(h: Heap, l: Layout, ptr: nat)
    requires Inv(h) && h.initialized && l.align > 0 && ptr % l.align == 0
    ensures Alloc(h, l, Some(ptr)).1.Some?
  {
    hide Inv, TryAlloc, RoundTo8, RoundToPage, Insert, Offset, ListIndex;
    if TryAlloc(h, l).1 == None {
      var size := RoundToPage(l);
      RoundsFit(l);
      AlignedOffset(ptr, l.align);
      var g := Grown(h, ptr, size);
      WholePages(l);
      GrownInv(h, ptr, size);
      TryAllocKeeps(g, l);
      InsertedFront(h.lists, ptr, size);
      var i := ListIndex(size).value;
      assert Fits(g.lists[i][0], RoundTo8(l), l.align);
    }
  }

  lemma GrownInv(h: Heap, ptr: nat, size: nat)
    requires Inv(h) && h.initialized && size % 4096 == 0
    ensures Inv(Grown(h, ptr, size)) && Grown(h, ptr, size).initialized
    ensures Classed(h.lists)
  {
    hide Classed, FreeBytes;
    InsertKeeps(h.lists, ptr, size);
    InsertBytes(h.lists, ptr, size);
  }

  lemma InsertedFront(lists: Lists, addr: nat, size: nat)
    requires Classed(lists) && size > 0
    ensures ListIndex(size).Some?
    ensures var i := ListIndex(size).value;
      i < |Insert(lists, addr, size)| && |Insert(lists, addr, size)[i]| > 0
        && Insert(lists, addr, size)[i][0] == Block(addr, size)
  {
  }

  /** A matching `dealloc` keeps the account: the freed bytes go back, the waste stays. */
  lemma DeallocKeeps(h: Heap, ptr: nat, l: Layout, k: nat)
    requires Inv(h) && k < |h.live| && h.live[k] == Block(ptr, RoundTo8(l))
    ensures var t := Dealloc(h, ptr, l, k);
      && Inv(t) && t.total == h.total && t.waste == h.waste
      && (h.initialized ==>
            && t.used == h.used - RoundTo8(l) && t.used >= 0
            && FreeBytes(t.lists) == FreeBytes(h.lists) + RoundTo8(l))
  {
    hide Classed, FreeBytes, ListBytes, RoundTo8;
    ListBytesRemove(h.live, k);
    InsertKeeps(h.lists, ptr, RoundTo8(l));
    InsertBytes(h.lists, ptr, RoundTo8(l));
  }

  /** `init` keeps the account exactly when the heap held no bytes before. */
  lemma InitConservesIff(h: Heap, start: nat, size: nat)
    requires Inv(h)
    ensures Inv(Init(h, start, size)) <==> h.total == 0
  {
    hide Classed, FreeBytes;
    InsertKeeps(h.lists, start, size);
    InsertBytes(h.lists, start, size);
  }

  // ---------- Every run

  /** `DoWrite` stands for whatever a program writes to its outstanding allocation number `k`. */
  datatype Op =
    | DoInit(start: nat, size: nat)
    | DoAlloc(layout: Layout, frames: Option<nat>)
    | DoDealloc(ptr: nat, layout: Layout, k: nat)
    | DoWrite(k: nat)

  ghost predicate Allowed(h: Heap, op: Op) {
    match op
    case DoInit(_, _) => h.total == 0
    case DoAlloc(l, _) => l.align > 0
    case DoDealloc(ptr, l, k) => k < |h.live| && h.live[k] == Block(ptr, RoundTo8(l))
    case DoWrite(k) => k < |h.live|
  }

  function Step(h: Heap, op: Op): Heap {
    match op
    case DoInit(start, size) => Init(h, start, size)
    case DoAlloc(l, frames) => if l.align > 0 then Alloc(h, l, frames).0 else h
    case DoDealloc(ptr, l, k) => if k < |h.live| then Dealloc(h, ptr, l, k) else h
    case DoWrite(_) => h
  }

  /** The bytes of an outstanding block meet no record of a free block. */
  ghost predicate BytesClear(lists: Lists, b: Block) {
    forall i, k :: 0 <= i < |lists| && 0 <= k < |lists[i]| ==> !InBytes(b, lists[i][k].addr)
  }

  /** The record at `a` has a byte inside the block. */
  predicate InBytes(b: Block, a: nat) {
    a < b.addr + b.size && b.addr < a + 24
  }

  /** No record that the operation writes, and no byte that a program writes, meets the record of a free block. */
  ghost predicate Clear(h: Heap, op: Op) {
    match op
    case DoInit(start, size) => size > 0 ==> RecordClear(h.lists, start)
    case DoAlloc(l, frames) => l.align > 0 && h.initialized ==> AllocClear(h, l, frames)
    case DoDealloc(ptr, l, k) => h.initialized && RoundTo8(l) > 0 ==> RecordClear(h.lists, ptr)
    case DoWrite(k) => k < |h.live| ==> BytesClear(h.lists, h.live[k])
  }

  ghost predicate AllocClear(h: Heap, l: Layout, frames: Option<nat>)
    requires l.align > 0
  {
    if TryAlloc(h, l).1.Some? then RestClear(h.lists, RoundTo8(l), l.align)
    else frames.Some? ==>
      && RecordClear(h.lists, frames.value)
      && RestClear(Insert(h.lists, frames.value, RoundToPage(l)), RoundTo8(l), l.align)
  }

  /** The heap after a sequence of operations. */
  function Run(ops: seq<Op>): Heap {
    if ops == [] then New() else Step(Run(ops[..|ops| - 1]), ops[|ops| - 1])
  }

  /** Layouts match, the heap is initialised once, and no write meets the record of a free block. */
  ghost predicate Permitted(ops: seq<Op>) {
    ops == [] ||
    var h, op := Run(ops[..|ops| - 1]), ops[|ops| - 1];
    Permitted(ops[..|ops| - 1]) && Allowed(h, op) && Clear(h, op)
  }

  lemma RunSnoc(ops: seq<Op>, op: Op)
    ensures Run(ops + [op]) == Step(Run(ops), op)
    ensures Permitted(ops + [op]) <==> Permitted(ops) && Allowed(Run(ops), op) && Clear(Run(ops), op)
  {
    assert (ops + [op])[..|ops|] == ops;
  }

  /** Every allowed operation keeps the account of the lists. */
  lemma StepKeeps(h: Heap, op: Op)
    requires Inv(h) && Allowed(h, op)
    ensures Inv(Step(h, op))
  {
    hide Inv, Alloc, Dealloc, Init, RoundTo8;
    match op
    case DoInit(start, size) => InitConservesIff(h, start, size);
    case DoAlloc(l, frames) => AllocKeeps(h, l, frames);
    case DoDealloc(ptr, l, k) => DeallocKeeps(h, ptr, l, k);
    case DoWrite(_) =>
  }

  lemma {:induction false} RunInv(ops: seq<Op>)
    requires Permitted(ops)
    ensures Inv(Run(ops))
    decreases |ops|
  {
    hide Inv, Allowed, Clear, Step;
    if ops == [] {
      NewInv();
    } else {
      RunInv(ops[..|ops| - 1]);
      StepKeeps(Run(ops[..|ops| - 1]), ops[|ops| - 1]);
    }
  }
}
