/**
  Where the heap of src/memory/heap.rs places blocks: which alignments its results honour, and where a split puts the
  rest.
 */
module HeapPlacement {
  import opened Options
  import opened FreeLists
  import opened FreeRecords
  import opened KernelHeap
  import opened HeapMemory

  predicate InPlace(u: nat, addr: nat) {
    u > 0 && addr % u == 0
  }

  ghost predicate ListsInPlace(u: nat, lists: Lists) {
    forall i, k :: 0 <= i < |lists| && 0 <= k < |lists[i]| ==> InPlace(u, lists[i][k].addr)
  }

  ghost predicate LiveInPlace(u: nat, live: seq<Block>) {
    forall k :: 0 <= k < |live| ==> InPlace(u, live[k].addr)
  }

  /** Every free and every outstanding block starts at a multiple of `u`. */
  ghost predicate Placed(u: nat, h: Heap) {
    ListsInPlace(u, h.lists) && LiveInPlace(u, h.live)
  }

  /** Memory handed to the heap starts at a multiple of `u`. */
  predicate SuppliedInPlace(u: nat, op: Op) {
    match op
    case DoInit(start, _) => InPlace(u, start)
    case DoAlloc(_, frames) => frames.Some? ==> InPlace(u, frames.value)
    case _ => true
  }

  // ---------- Multiples

  lemma AddMultiple(d: nat, x: nat, y: nat)
    requires d > 0 && x % d == 0 && y % d == 0
    ensures (x + y) % d == 0
  {
    var p, q := x / d, y / d;
    assert x == d * p && y == d * q;
    assert x + y == d * (p + q);
    MultipleOf(d, p + q);
  }

  /** A multiple of a multiple. */
  lemma Finer(d: nat, u: nat, x: nat)
    requires InPlace(u, x) && d > 0 && u % d == 0
    ensures InPlace(d, x)
  {
    var q, m := x / u, u / d;
    assert d * m == u;
    assert x == d * (m * q) by {
      assert x == (d * m) * q;
    }
    MultipleOf(d, m * q);
  }

  // ---------- Every operation keeps blocks in place

  lemma InsertInPlace(u: nat, lists: Lists, addr: nat, size: nat)
    requires ListsInPlace(u, lists) && InPlace(u, addr)
    ensures ListsInPlace(u, Insert(lists, addr, size))
  {
    hide InPlace;
  }

  /** The rest of a split block starts 24 bytes on for each of a multiple of eight bytes: a multiple of 64 further. */
  lemma RestInPlace(u: nat, addr: nat, size: nat)
    requires InPlace(u, addr) && size % 8 == 0 && 64 % u == 0
    ensures InPlace(u, addr + 24 * size)
  {
    var q := size / 8;
    assert 24 * size == 64 * (3 * q);
    MultipleOf(64, 3 * q);
    Finer(u, 64, 24 * size);
    AddMultiple(u, addr, 24 * size);
  }

  lemma RemoveInPlace(u: nat, lists: Lists, size: nat, align: nat)
    requires ListsInPlace(u, lists) && align > 0 && size % 8 == 0 && u > 0 && 64 % u == 0
    ensures var (rest, b) := RemoveBestFit(lists, size, align);
      ListsInPlace(u, rest) && (b.Some? ==> InPlace(u, b.value.addr))
  {
    hide Search, Insert, InPlace, ListsInPlace;
    match Search(lists, size, align)
    case None =>
    case Some(p) =>
      if Holds(lists, p) {
        UnlinkInPlace(u, lists, p);
        RestInPlace(u, At(lists, p).addr, size);
        if Splits(At(lists, p), size) {
          InsertInPlace(u, Unlink(lists, p), At(lists, p).addr + 24 * size, At(lists, p).size - size);
        }
      }
  }

  lemma UnlinkInPlace(u: nat, lists: Lists, p: Place)
    requires ListsInPlace(u, lists) && Holds(lists, p)
    ensures ListsInPlace(u, Unlink(lists, p)) && InPlace(u, At(lists, p).addr)
  {
    hide InPlace;
  }

  lemma TryAllocPlaced(u: nat, h: Heap, l: Layout)
    requires Placed(u, h) && l.align > 0 && u > 0 && 64 % u == 0
    ensures var (t, r) := TryAlloc(h, l); Placed(u, t) && (r.Some? ==> InPlace(u, r.value))
  {
    hide InPlace, ListsInPlace, RemoveBestFit;
    RemoveInPlace(u, h.lists, RoundTo8(l), l.align);
  }

  lemma AllocPlaced(u: nat, h: Heap, l: Layout, frames: Option<nat>)
    requires Placed(u, h) && l.align > 0 && u > 0 && 64 % u == 0 && (frames.Some? ==> InPlace(u, frames.value))
    ensures var (t, r) := Alloc(h, l, frames); Placed(u, t) && (r.Some? ==> InPlace(u, r.value))
  {
    hide InPlace, ListsInPlace, TryAlloc, Insert;
    TryAllocPlaced(u, h, l);
    if frames.Some? {
      InsertInPlace(u, h.lists, frames.value, RoundToPage(l));
      TryAllocPlaced(u, Grown(h, frames.value, RoundToPage(l)), l);
    }
  }

  lemma StepPlaced(u: nat, h: Heap, op: Op)
    requires Placed(u, h) && Allowed(h, op) && SuppliedInPlace(u, op) && u > 0 && 64 % u == 0
    ensures Placed(u, Step(h, op))
  {
    hide InPlace, ListsInPlace, Alloc, Insert;
    match op
    case DoInit(start, size) => InsertInPlace(u, h.lists, start, size);
    case DoAlloc(l, frames) => AllocPlaced(u, h, l, frames);
    case DoDealloc(ptr, l, k) =>
      assert InPlace(u, h.live[k].addr);
      InsertInPlace(u, h.lists, ptr, RoundTo8(l));
    case DoWrite(_) =>
  }

  /** A run that writes over no record of a free block and whose supplied memory starts at multiples of `u`. */
  ghost predicate Supplied(u: nat, ops: seq<Op>) {
    Permitted(ops) && forall k :: 0 <= k < |ops| ==> SuppliedInPlace(u, ops[k])
  }

  lemma SuppliedSnoc(u: nat, ops: seq<Op>, op: Op)
    ensures Supplied(u, ops + [op]) <==>
      Supplied(u, ops) && SuppliedInPlace(u, op) && Allowed(Run(ops), op) && Clear(Run(ops), op)
  {
    hide Permitted, SuppliedInPlace, Allowed, Clear;
    RunSnoc(ops, op);
    var longer := ops + [op];
    assert longer[|ops|] == op;
    assert forall k :: 0 <= k < |ops| ==> longer[k] == ops[k];
  }

  lemma {:induction false} ListsPlaced(u: nat, ops: seq<Op>)
    requires Supplied(u, ops) && u > 0 && 64 % u == 0
    ensures Placed(u, Run(ops))
    decreases |ops|
  {
    hide InPlace, Supplied, SuppliedInPlace, Allowed, Clear, Step;
    if ops != [] {
      var prefix, op := ops[..|ops| - 1], ops[|ops| - 1];
      assert ops == prefix + [op];
      SuppliedSnoc(u, prefix, op);
      ListsPlaced(u, prefix);
      StepPlaced(u, Run(prefix), op);
    }
  }

  /** For a divisor of 64 that divides all supplied memory, every block of every such run starts at a multiple of it. */
  lemma RunPlaced(u: nat, ops: seq<Op>)
    requires Supplied(u, ops) && u > 0 && 64 % u == 0
    ensures ListsInPlace(u, FreeIn(RunMachine(ops).store)) && LiveInPlace(u, RunMachine(ops).live)
  {
    hide Permitted, ListsInPlace, LiveInPlace, Stored, Spaced;
    ListsPlaced(u, ops);
    RunMirrors(ops);
    FreeInIs(RunMachine(ops).store, Run(ops).lists);
  }

  // ---------- Which alignments are honoured

  /** The heap answers the request with an aligned address, or refuses it. */
  ghost predicate Honours(ops: seq<Op>, l: Layout, frames: Option<nat>)
    requires l.align > 0
  {
    var a := AllocMachine(RunMachine(ops), l, frames).1;
    a.Pointer? ==> a.addr % l.align == 0
  }

  /** Every run whose memory is supplied at multiples of `u` honours the alignment. */
  ghost predicate AlwaysHonoured(u: nat, align: nat)
    requires align > 0
  {
    forall ops, size, frames ::
      Supplied(u, ops + [DoAlloc(Layout(size, align), frames)]) ==> Honours(ops, Layout(size, align), frames)
  }

  /** A request in such a run is answered as from the lists. */
  lemma Answered(ops: seq<Op>, l: Layout, frames: Option<nat>)
    requires Permitted(ops) && l.align > 0 && Clear(Run(ops), DoAlloc(l, frames))
    ensures AllocMachine(RunMachine(ops), l, frames).1 == AnswerOf(Alloc(Run(ops), l, frames).1)
  {
    hide Permitted, Stored, Spaced, AllocClear, AllocMachine, Alloc, Classed, FreeBytes;
    RunMirrors(ops);
    AllocMirrors(RunMachine(ops), Run(ops), l, frames);
    NotInitialised(RunMachine(ops), Run(ops), l, frames);
  }

  lemma FinerSupply(d: nat, u: nat, op: Op)
    requires SuppliedInPlace(u, op) && d > 0 && u > 0 && u % d == 0
    ensures SuppliedInPlace(d, op)
  {
    match op
    case DoInit(start, _) => Finer(d, u, start);
    case DoAlloc(_, frames) => if frames.Some? { Finer(d, u, frames.value); }
    case _ =>
  }

  lemma FinerRun(d: nat, u: nat, ops: seq<Op>)
    requires Supplied(u, ops) && d > 0 && u > 0 && u % d == 0
    ensures Supplied(d, ops)
  {
    hide SuppliedInPlace, Permitted;
    forall k | 0 <= k < |ops| ensures SuppliedInPlace(d, ops[k]) {
      FinerSupply(d, u, ops[k]);
    }
  }

  lemma Honoured(u: nat, align: nat)
    requires align > 0 && u > 0 && u % align == 0 && 64 % align == 0
    ensures AlwaysHonoured(u, align)
  {
    forall ops, size, frames | Supplied(u, ops + [DoAlloc(Layout(size, align), frames)])
      ensures Honours(ops, Layout(size, align), frames)
    {
      HonouredOnce(u, ops, Layout(size, align), frames);
    }
  }

  lemma HonouredOnce(u: nat, ops: seq<Op>, l: Layout, frames: Option<nat>)
    requires l.align > 0 && u > 0 && u % l.align == 0 && 64 % l.align == 0 && Supplied(u, ops + [DoAlloc(l, frames)])
    ensures Honours(ops, l, frames)
  {
    hide Supplied, Permitted, Clear, Alloc, AllocMachine, Placed, Run, RunMachine;
    FinerRun(l.align, u, ops + [DoAlloc(l, frames)]);
    SuppliedSnoc(l.align, ops, DoAlloc(l, frames));
    SuppliedPermitted(l.align, ops);
    ListsPlaced(l.align, ops);
    AllocPlaced(l.align, Run(ops), l, frames);
    Answered(ops, l, frames);
  }

  lemma SuppliedPermitted(u: nat, ops: seq<Op>)
    requires Supplied(u, ops)
    ensures Permitted(ops)
  {
  }

  // ---------- Which alignments are missed

  /** Free lists that hold one block. */
  function One(b: Block): Lists {
    Insert(New().lists, b.addr, b.size)
  }

  lemma OneHolds(b: Block)
    requires b.size > 0
    ensures Classed(One(b)) && ListIndex(b.size).Some?
    ensures var i := ListIndex(b.size).value;
      && Holds(One(b), Place(i, 0)) && At(One(b), Place(i, 0)) == b && Unlink(One(b), Place(i, 0)) == New().lists
      && (forall p :: Holds(One(b), p) ==> p == Place(i, 0))
  {
    hide Log2;
    var i := ListIndex(b.size).value;
    assert One(b)[i] == [b];
    assert Unlink(One(b), Place(i, 0))[i] == [];
    assert Unlink(One(b), Place(i, 0)) == New().lists;
  }

  /** A fitting request takes the only block. */
  lemma TakeOnly(b: Block, size: nat, align: nat)
    requires b.size > 0 && align > 0 && Fits(b, size, align)
    ensures var (rest, r) := RemoveBestFit(One(b), size, align);
      r == Some(b) && (Splits(b, size) ==> rest == One(Block(b.addr + 24 * size, b.size - size)))
  {
    hide Fits, Search, One, Classed;
    OneHolds(b);
    SearchComplete(One(b), size, align);
    var i := ListIndex(b.size).value;
    var lists := One(b);
    assert Fits(lists[i][0], size, align);
    OneIs(Block(b.addr + 24 * size, if Splits(b, size) then b.size - size else 1));
  }

  lemma OneIs(b: Block)
    ensures One(b) == Insert(New().lists, b.addr, b.size)
  {
  }

  /** An initial stretch that is large enough for what follows. */
  function Stretch(align: nat): nat {
    4 * align + 4096
  }

  function First(start: nat, align: nat): Heap {
    Init(New(), start, Stretch(align))
  }

  function Second(start: nat, align: nat): Heap {
    Alloc(First(start, align), Layout(8, 8), None).0
  }

  lemma RoundedSize(align: nat)
    ensures RoundTo8(Layout(8, align)) <= align + 15
  {
  }

  /** The first request on a fresh heap is served at its very start. */
  lemma FirstResult(start: nat, align: nat, frames: Option<nat>)
    requires align > 0
    ensures Alloc(First(start, align), Layout(8, align), frames).1 == Some(start)
  {
    hide RemoveBestFit, Offset, One, Insert, RoundTo8;
    var b := Block(start, Stretch(align));
    OneIs(b);
    FirstAligned(start, align);
    RoundedSize(align);
    TakeOnly(b, RoundTo8(Layout(8, align)), align);
  }

  lemma SecondLists(start: nat, align: nat)
    ensures Second(start, align).initialized
    ensures Second(start, align).lists == One(Block(start + 192, Stretch(align) - 8))
  {
    hide RemoveBestFit, Offset, One, Insert;
    var b := Block(start, Stretch(align));
    OneIs(b);
    FirstAligned(start, 8);
    assert RoundTo8(Layout(8, 8)) == 8;
    TakeOnly(b, 8, 8);
  }

  /** After one request of eight bytes the next is served 192 bytes on. */
  lemma SecondResult(start: nat, align: nat, frames: Option<nat>)
    requires align > 0
    ensures Alloc(Second(start, align), Layout(8, align), frames).1 == Some(start + 192)
  {
    hide RemoveBestFit, Offset, One, Second, RoundTo8;
    SecondLists(start, align);
    FirstAligned(start + 192, align);
    RoundedSize(align);
    TakeOnly(Block(start + 192, Stretch(align) - 8), RoundTo8(Layout(8, align)), align);
  }

  function FirstOps(start: nat, align: nat): seq<Op> {
    [DoInit(start, Stretch(align))]
  }

  function SecondOps(start: nat, align: nat): seq<Op> {
    FirstOps(start, align) + [DoAlloc(Layout(8, 8), None)]
  }

  /** With one free block there is no other record that its rest could meet. */
  lemma OneRestClear(b: Block, size: nat, align: nat)
    requires b.size > 0 && align > 0
    ensures RestClear(One(b), size, align)
  {
    hide Fits, One, Classed;
    OneHolds(b);
    SearchComplete(One(b), size, align);
  }

  lemma FirstRun(u: nat, start: nat, align: nat, l: Layout)
    requires InPlace(u, start) && l.align > 0
    ensures Run(FirstOps(start, align)) == First(start, align)
    ensures Supplied(u, FirstOps(start, align)) && Supplied(u, FirstOps(start, align) + [DoAlloc(l, None)])
  {
    hide Stretch, InPlace, RoundTo8, RemoveBestFit, RestClear, Insert;
    var op := DoInit(start, Stretch(align));
    SuppliedSnoc(u, [], op);
    RunSnoc([], op);
    assert [] + [op] == FirstOps(start, align);
    SuppliedSnoc(u, FirstOps(start, align), DoAlloc(l, None));
    StretchPositive(align);
    OneIs(Block(start, Stretch(align)));
    OneRestClear(Block(start, Stretch(align)), RoundTo8(l), l.align);
  }

  lemma StretchPositive(align: nat)
    ensures Stretch(align) > 8
  {
  }

  lemma SecondRun(u: nat, start: nat, align: nat, l: Layout)
    requires InPlace(u, start) && l.align > 0
    ensures Run(SecondOps(start, align)) == Second(start, align)
    ensures Supplied(u, SecondOps(start, align) + [DoAlloc(l, None)])
  {
    hide Stretch, InPlace, RoundTo8, RemoveBestFit, RestClear, Supplied, Run, TryAlloc, First;
    FirstRun(u, start, align, Layout(8, 8));
    RunSnoc(FirstOps(start, align), DoAlloc(Layout(8, 8), None));
    SuppliedSnoc(u, SecondOps(start, align), DoAlloc(l, None));
    SecondLists(start, align);
    StretchPositive(align);
    OneRestClear(Block(start + 192, Stretch(align) - 8), RoundTo8(l), l.align);
  }

  lemma MissedFirst(u: nat, start: nat, align: nat)
    requires InPlace(u, start) && align > 0 && start % align != 0
    ensures !AlwaysHonoured(u, align)
  {
    hide Alloc, AllocMachine, First, InPlace, Supplied, Run, RunMachine, Clear, FirstOps;
    var ops, l := FirstOps(start, align), Layout(8, align);
    FirstRun(u, start, align, l);
    FirstResult(start, align, None);
    SuppliedSnoc(u, ops, DoAlloc(l, None));
    SuppliedPermitted(u, ops);
    Answered(ops, l, None);
    assert !Honours(ops, l, None);
  }

  lemma MissedSecond(u: nat, start: nat, align: nat)
    requires InPlace(u, start) && align > 0 && (start + 192) % align != 0
    ensures !AlwaysHonoured(u, align)
  {
    hide Alloc, AllocMachine, First, Second, InPlace, Supplied, Run, RunMachine, Clear, SecondOps;
    var ops, l := SecondOps(start, align), Layout(8, align);
    SecondRun(u, start, align, l);
    SecondResult(start, align, None);
    SuppliedSnoc(u, ops, DoAlloc(l, None));
    SuppliedPermitted(u, ops);
    Answered(ops, l, None);
    assert !Honours(ops, l, None);
  }

  /** 192 is three times 64, so it is no multiple of 128. */
  lemma NotMultiple(start: nat, align: nat)
    requires align > 0 && align % 128 == 0 && start % align == 0
    ensures (start + 192) % align != 0
  {
    var p, q, m := start / align, (start + 192) / align, align / 128;
    assert start == align * p;
    assert (start + 192) % align == 192 + align * (p - q);
    assert align * (p - q) == 128 * (m * (p - q)) by {
      assert align == 128 * m;
    }
  }

  lemma {:induction false} PowerSplits(e: nat)
    ensures Pow2(e) > 0 && (e <= 6 ==> 64 % Pow2(e) == 0) && (e > 6 ==> Pow2(e) % 128 == 0)
  {
    if e > 7 {
      PowerSplits(e - 1);
    } else {
      assert Pow2(1) == 2 && Pow2(2) == 4 && Pow2(3) == 8;
      assert Pow2(4) == 16 && Pow2(5) == 32 && Pow2(6) == 64 && Pow2(7) == 128;
    }
  }

  lemma {:induction false} PowerDivides(e: nat, a: nat)
    requires e <= a
    ensures Pow2(e) > 0 && Pow2(a) % Pow2(e) == 0
  {
    PowerSplits(e);
    if e < a {
      PowerDivides(e, a - 1);
      AddMultiple(Pow2(e), Pow2(a - 1), Pow2(a - 1));
    } else {
      MultipleOf(Pow2(e), 1);
    }
  }

  lemma {:induction false} PowerBelow(a: nat, e: nat)
    requires a < e
    ensures 0 < Pow2(a) < Pow2(e)
  {
    PowerSplits(a);
    if a + 1 < e {
      PowerBelow(a, e - 1);
    }
  }

  lemma SmallMod(x: nat, d: nat)
    requires 0 < x < d
    ensures x % d != 0
  {
  }

  lemma MissedAboveSupply(a: nat, e: nat)
    requires a < e
    ensures Pow2(e) > 0 && !AlwaysHonoured(Pow2(a), Pow2(e))
  {
    hide AlwaysHonoured, Pow2, InPlace;
    PowerBelow(a, e);
    SmallMod(Pow2(a), Pow2(e));
    PowerSelf(a);
    MissedFirst(Pow2(a), Pow2(a), Pow2(e));
  }

  /** An alignment above 64 is missed however well the memory is aligned. */
  lemma MissedAbove64(a: nat, e: nat)
    requires 6 < e <= a
    ensures Pow2(e) > 0 && !AlwaysHonoured(Pow2(a), Pow2(e))
  {
    hide AlwaysHonoured, Pow2, InPlace;
    PowerSplits(e);
    PowerDivides(e, a);
    PowerSelf(a);
    NotMultiple(Pow2(a), Pow2(e));
    MissedSecond(Pow2(a), Pow2(a), Pow2(e));
  }

  /**
    When all memory is supplied at multiples of 2^a, every run that writes over no record of a free block honours the
    alignment 2^e exactly when e is at most a and at most 6.
   */
  lemma HonouredIff(a: nat, e: nat)
    ensures Pow2(e) > 0
    ensures AlwaysHonoured(Pow2(a), Pow2(e)) <==> e <= a && e <= 6
  {
    hide AlwaysHonoured, Pow2;
    PowerSplits(e);
    if e > a {
      MissedAboveSupply(a, e);
    } else if e > 6 {
      MissedAbove64(a, e);
    } else {
      PowerSplits(a);
      PowerDivides(e, a);
      Honoured(Pow2(a), Pow2(e));
    }
  }

  lemma PowerSelf(a: nat)
    ensures InPlace(Pow2(a), Pow2(a))
  {
    PowerSplits(a);
    MultipleOf(Pow2(a), 1);
  }

  // ---------- The rest of a split block

  /**
    The rest of a split block is put back past the served bytes, and it stays inside the block it was cut from
    exactly when the request is empty: it starts 24 bytes on for each byte requested.
   */
  lemma RestInsideIff(lists: Lists, size: nat, align: nat)
    requires Classed(lists) && align > 0
    requires var b := RemoveBestFit(lists, size, align).1; b.Some? && Splits(b.value, size)
    ensures var (rest, b) := RemoveBestFit(lists, size, align);
      var i := ListIndex(b.value.size - size).value;
      && i < |rest| && |rest[i]| > 0 && rest[i][0].size == b.value.size - size
      && rest[i][0].addr >= b.value.addr + size
      && (rest[i][0].addr + rest[i][0].size <= b.value.addr + b.value.size <==> size == 0)
  {
    hide Log2, Fits, Classed, Search;
    SearchComplete(lists, size, align);
    var p := Search(lists, size, align).value;
    UnlinkKeeps(lists, p);
    InsertedFront(Unlink(lists, p), At(lists, p).addr + 24 * size, At(lists, p).size - size);
  }
}
