/**
  The kernel heap of src/memory/heap.rs with its free lists in memory, and the runs over which the byte account holds.
 */
module HeapMemory {
  import opened Options
  import opened FreeLists
  import opened FreeRecords
  import opened KernelHeap

  /** The heap as it is: list heads and records in memory, and the counters; the last four fields are history. */
  datatype Machine = Machine(store: Store, total: nat, used: int, pages: nat, initialized: bool,
                             live: seq<Block>, waste: nat, unsplit: nat, initial: nat)

  /** The answer to a request: the search never ends, a null pointer, or a pointer. */
  datatype Answer = Stuck | Null | Pointer(addr: nat)

  function NewMachine(): Machine {
    Machine(Store(map[], seq(MAX_FREE_LISTS, _ => None)), 0, 0, 0, false, [], 0, 0, 0)
  }

  function InitMachine(m: Machine, start: nat, size: nat): Machine {
    m.(store := InsertRecord(m.store, start, size), total := size, initialized := true, initial := size)
  }

  /** `try_alloc_from_free_list`. */
  function TryMachine(m: Machine, l: Layout): (Machine, Answer)
    requires l.align > 0
  {
    var size := RoundTo8(l);
    match TakeFit(m.store, size, l.align)
    case (_, Hung) => (m, Stuck)
    case (_, Nothing) => (m, Null)
    case (rest, Got(b)) =>
      var lost := if Splits(b, size) || b.size < size then 0 else b.size - size;
      (m.(store := rest, used := m.used + size, live := m.live + [Block(b.addr, size)],
          waste := m.waste + lost, unsplit := m.unsplit + (if Splits(b, size) then 0 else 1)), Pointer(b.addr))
  }

  function GrownMachine(m: Machine, ptr: nat, size: nat): Machine {
    m.(store := InsertRecord(m.store, ptr, size), total := m.total + size, pages := m.pages + (size + 4095) / 4096)
  }

  /** `alloc`, with `expand_heap`. */
  function AllocMachine(m: Machine, l: Layout, frames: Option<nat>): (Machine, Answer)
    requires l.align > 0
  {
    if !m.initialized then (m, Null)
    else
      var (t, a) := TryMachine(m, l);
      if a != Null || frames == None then (t, a)
      else TryMachine(GrownMachine(m, frames.value, RoundToPage(l)), l)
  }

  function DeallocMachine(m: Machine, ptr: nat, l: Layout, k: nat): Machine
    requires k < |m.live|
  {
    if !m.initialized then m
    else m.(used := m.used - RoundTo8(l), store := InsertRecord(m.store, ptr, RoundTo8(l)),
      live := m.live[..k] + m.live[k + 1..])
  }

  /** What a program writes into its block is no record any more. */
  function Erase(m: Memory, b: Block): Memory {
    map k | k in m && !InBytes(b, k) :: m[k]
  }

  function StepMachine(m: Machine, op: Op): Machine {
    match op
    case DoInit(start, size) => InitMachine(m, start, size)
    case DoAlloc(l, frames) => if l.align > 0 then AllocMachine(m, l, frames).0 else m
    case DoDealloc(ptr, l, k) => if k < |m.live| then DeallocMachine(m, ptr, l, k) else m
    case DoWrite(k) =>
      if k < |m.live| then m.(store := m.store.(memory := Erase(m.store.memory, m.live[k]))) else m
  }

  function RunMachine(ops: seq<Op>): Machine {
    if ops == [] then NewMachine() else StepMachine(RunMachine(ops[..|ops| - 1]), ops[|ops| - 1])
  }

  /** What the heap asks of its callers: one initialisation, and layouts that match the outstanding allocations. */
  predicate Matches(m: Machine, op: Op) {
    match op
    case DoInit(_, _) => m.total == 0
    case DoAlloc(l, _) => l.align > 0
    case DoDealloc(ptr, l, k) => k < |m.live| && m.live[k] == Block(ptr, RoundTo8(l))
    case DoWrite(k) => k < |m.live|
  }

  predicate Matching(ops: seq<Op>) {
    ops == [] || (Matching(ops[..|ops| - 1]) && Matches(RunMachine(ops[..|ops| - 1]), ops[|ops| - 1]))
  }

  // ---------- Memory holds the lists

  ghost predicate SameCounters(m: Machine, h: Heap) {
    && m.total == h.total && m.used == h.used && m.pages == h.pages && m.initialized == h.initialized
    && m.live == h.live && m.waste == h.waste && m.unsplit == h.unsplit && m.initial == h.initial
  }

  /** Memory holds the free lists of the heap, and all else is equal. */
  ghost predicate Mirrors(m: Machine, h: Heap) {
    Spaced(m.store.memory) && Stored(m.store, h.lists) && SameCounters(m, h)
  }

  function AnswerOf(r: Option<nat>): Answer {
    match r case None => Null case Some(addr) => Pointer(addr)
  }

  lemma NewMirrors()
    ensures Mirrors(NewMachine(), New())
  {
  }

  /** Inserting a block keeps memory and lists alike exactly when its record meets no other one. */
  lemma InsertMirrors(s: Store, lists: Lists, addr: nat, size: nat)
    requires Spaced(s.memory) && Stored(s, lists) && Classed(lists)
    ensures Spaced(InsertRecord(s, addr, size).memory)
    ensures Stored(InsertRecord(s, addr, size), Insert(lists, addr, size)) <==> (size > 0 ==> RecordClear(lists, addr))
  {
    hide Spaced, Stored, Classed, RecordClear;
    InsertSpaced(s, addr, size);
    if size > 0 {
      InsertHoldsIff(s, lists, addr, size);
    }
  }

  lemma InitMirrorsIff(m: Machine, h: Heap, start: nat, size: nat)
    requires Mirrors(m, h) && Classed(h.lists)
    ensures Mirrors(InitMachine(m, start, size), Init(h, start, size)) <==> Clear(h, DoInit(start, size))
  {
    hide Spaced, Stored, Classed, RecordClear, InsertRecord, Insert;
    InsertMirrors(m.store, h.lists, start, size);
  }

  /**
    An attempt is answered as from the lists, and memory holds the new lists exactly when the rest of a split is clear.
   */
  lemma TryMirrorsIff(m: Machine, h: Heap, l: Layout)
    requires Mirrors(m, h) && Classed(h.lists) && l.align > 0
    ensures var (t, a) := TryMachine(m, l);
      var (u, r) := TryAlloc(h, l);
      && a == AnswerOf(r) && (r == None ==> t == m && u == h)
      && (Mirrors(t, u) <==> RestClear(h.lists, RoundTo8(l), l.align))
  {
    hide Spaced, Stored, Classed, RestClear, TakeFit, RemoveBestFit, RoundTo8;
    TakeFitHoldsIff(m.store, h.lists, RoundTo8(l), l.align);
    NothingTaken(m.store, h.lists, RoundTo8(l), l.align);
  }

  lemma NothingTaken(s: Store, lists: Lists, size: nat, align: nat)
    requires align > 0
    ensures TakeFit(s, size, align).1.Got? || TakeFit(s, size, align).0 == s
    ensures RemoveBestFit(lists, size, align).1 == None ==> RemoveBestFit(lists, size, align).0 == lists
  {
  }

  lemma AllocMirrors(m: Machine, h: Heap, l: Layout, frames: Option<nat>)
    requires Mirrors(m, h) && Classed(h.lists) && l.align > 0
    ensures h.initialized && AllocClear(h, l, frames) ==> Mirrors(AllocMachine(m, l, frames).0, Alloc(h, l, frames).0)
    ensures h.initialized && AllocClear(h, l, frames) ==>
        AllocMachine(m, l, frames).1 == AnswerOf(Alloc(h, l, frames).1)
  {
    hide Spaced, Stored, Classed, RestClear, RecordClear, TryMachine, TryAlloc, InsertRecord, Insert, RoundTo8,
        RoundToPage;
    TryMirrorsIff(m, h, l);
    if frames.Some? {
      InsertMirrors(m.store, h.lists, frames.value, RoundToPage(l));
      InsertKeeps(h.lists, frames.value, RoundToPage(l));
      if RecordClear(h.lists, frames.value) {
        TryMirrorsIff(GrownMachine(m, frames.value, RoundToPage(l)), Grown(h, frames.value, RoundToPage(l)), l);
      }
    }
  }

  lemma DeallocMirrorsIff(m: Machine, h: Heap, ptr: nat, l: Layout, k: nat)
    requires Mirrors(m, h) && Classed(h.lists) && k < |h.live|
    ensures Mirrors(DeallocMachine(m, ptr, l, k), Dealloc(h, ptr, l, k)) <==> Clear(h, DoDealloc(ptr, l, k))
  {
    hide Spaced, Stored, Classed, RecordClear, InsertRecord, Insert, RoundTo8;
    InsertMirrors(m.store, h.lists, ptr, RoundTo8(l));
  }

  /** A program may write to its block exactly when no record of a free block lies in it. */
  lemma EraseHoldsIff(s: Store, lists: Lists, b: Block)
    requires Stored(s, lists)
    ensures Stored(s.(memory := Erase(s.memory, b)), lists) <==> BytesClear(lists, b)
  {
    var t := s.(memory := Erase(s.memory, b));
    if BytesClear(lists, b) {
      forall i | 0 <= i < |lists| ensures Chain(t.memory, t.heads[i], lists[i]) {
        assert Chain(s.memory, s.heads[i], lists[i]);
      }
    } else {
      var i: nat, k: nat :| i < |lists| && k < |lists[i]| && InBytes(b, lists[i][k].addr);
      assert lists[i][k].addr !in t.memory;
      assert !Chain(t.memory, t.heads[i], lists[i]);
    }
  }

  lemma WriteMirrorsIff(m: Machine, h: Heap, k: nat)
    requires Mirrors(m, h) && k < |h.live|
    ensures Mirrors(StepMachine(m, DoWrite(k)), h) <==> Clear(h, DoWrite(k))
  {
    hide Stored, BytesClear;
    EraseHoldsIff(m.store, h.lists, m.live[k]);
  }

  /** An operation that writes over no record of a free block keeps memory and lists alike. */
  lemma StepMirrors(m: Machine, h: Heap, op: Op)
    requires Mirrors(m, h) && Classed(h.lists) && Allowed(h, op) && Clear(h, op)
    ensures Mirrors(StepMachine(m, op), Step(h, op))
  {
    hide Spaced, Stored, Classed, RecordClear, BytesClear, AllocClear, AllocMachine, Alloc, DeallocMachine, Dealloc,
      InitMachine, Init, RoundTo8;
    match op
    case DoInit(start, size) => InitMirrorsIff(m, h, start, size);
    case DoAlloc(l, frames) => AllocMirrors(m, h, l, frames); NotInitialised(m, h, l, frames);
    case DoDealloc(ptr, l, k) => DeallocMirrorsIff(m, h, ptr, l, k);
    case DoWrite(k) => WriteMirrorsIff(m, h, k);
  }

  lemma NotInitialised(m: Machine, h: Heap, l: Layout, frames: Option<nat>)
    requires m.initialized == h.initialized && l.align > 0
    ensures !h.initialized ==> AllocMachine(m, l, frames) == (m, Null) && Alloc(h, l, frames) == (h, None)
  {
  }

  lemma {:induction false} RunMirrors(ops: seq<Op>)
    requires Permitted(ops)
    ensures Mirrors(RunMachine(ops), Run(ops)) && Inv(Run(ops))
    decreases |ops|
  {
    hide Mirrors, Inv, Allowed, Clear, Step, StepMachine;
    RunInv(ops);
    if ops == [] {
      NewMirrors();
    } else {
      var prefix := ops[..|ops| - 1];
      RunMirrors(prefix);
      InvClassed(Run(prefix));
      StepMirrors(RunMachine(prefix), Run(prefix), ops[|ops| - 1]);
    }
  }

  lemma InvClassed(h: Heap)
    requires Inv(h)
    ensures Classed(h.lists)
  {
  }

  // ---------- What holds in every run

  /**
    In every run with matching layouts that writes over no record of a free block, the lists read off memory are in
    their size classes and the used bytes are those outstanding; used and free bytes never exceed the total, and what
    is missing is at most 32 bytes for each allocation served without a split; the total is the initial stretch and the
    pages taken.
   */
  lemma RunConserves(ops: seq<Op>)
    requires Permitted(ops)
    ensures var m := RunMachine(ops);
      var lists := FreeIn(m.store);
      && Classed(lists) && m.used == ListBytes(m.live)
      && m.used + FreeBytes(lists) <= m.total <= m.used + FreeBytes(lists) + 32 * m.unsplit
      && m.total == m.initial + 4096 * m.pages
  {
    hide Permitted, Classed, FreeBytes, Stored, Spaced, FreeIn;
    RunMirrors(ops);
    FreeInIs(RunMachine(ops).store, Run(ops).lists);
  }

  /** In such a run a search always ends, and finds nothing exactly when no free block in memory fits. */
  lemma RunSearches(ops: seq<Op>, l: Layout)
    requires Permitted(ops) && l.align > 0
    ensures var m := RunMachine(ops);
      var lists, a := FreeIn(m.store), TryMachine(m, l).1;
      && a != Stuck
      && (a == Null <==> forall i, k ::
            0 <= i < |lists| && 0 <= k < |lists[i]| ==> !Fits(lists[i][k], RoundTo8(l), l.align))
  {
    hide Permitted, Classed, FreeBytes, Stored, Spaced, FreeIn, TryMachine, TryAlloc, Fits, RoundTo8;
    RunMirrors(ops);
    var m, h := RunMachine(ops), Run(ops);
    FreeInIs(m.store, h.lists);
    TryMirrorsIff(m, h, l);
    TryFailsIff(h, l);
  }

  lemma TryFailsIff(h: Heap, l: Layout)
    requires Classed(h.lists) && l.align > 0
    ensures TryAlloc(h, l).1 == None <==>
      forall i, k :: 0 <= i < |h.lists| && 0 <= k < |h.lists[i]| ==> !Fits(h.lists[i][k], RoundTo8(l), l.align)
  {
    hide Fits, RoundTo8, RemoveBestFit, Classed;
    RemoveFailsIff(h.lists, RoundTo8(l), l.align);
  }

  /** In such a run an allocation succeeds whenever pages arrive that are aligned for it. */
  lemma RunAllocates(ops: seq<Op>, l: Layout, ptr: nat)
    requires Permitted(ops) && RunMachine(ops).initialized && l.align > 0 && ptr % l.align == 0
    requires AllocClear(Run(ops), l, Some(ptr))
    ensures AllocMachine(RunMachine(ops), l, Some(ptr)).1.Pointer?
  {
    hide Permitted, Stored, Spaced, AllocClear, AllocMachine, Alloc, Classed, FreeBytes;
    RunMirrors(ops);
    AllocMirrors(RunMachine(ops), Run(ops), l, Some(ptr));
    AllocSucceeds(Run(ops), l, ptr);
  }

  // ---------- What a caller gets

  /** A block in the lists. */
  ghost predicate Among(lists: Lists, b: Block) {
    exists i, k :: 0 <= i < |lists| && 0 <= k < |lists[i]| && lists[i][k] == b
  }

  lemma TakenAmong(lists: Lists, size: nat, align: nat)
    requires Classed(lists) && align > 0
    ensures var b := RemoveBestFit(lists, size, align).1; b.Some? ==> Among(lists, b.value) && size <= b.value.size
  {
    hide Fits, Search, Insert, Unlink, Classed;
    SearchComplete(lists, size, align);
    if Search(lists, size, align).Some? {
      var p := Search(lists, size, align).value;
      assert lists[p.list][p.at] == At(lists, p);
      FitsSize(At(lists, p), size, align);
    }
  }

  lemma FitsSize(b: Block, size: nat, align: nat)
    requires align > 0 && Fits(b, size, align)
    ensures size <= b.size
  {
  }

  /** The request was served from a block with enough bytes: a free one, or the pages just granted. */
  ghost predicate Source(m: Machine, u: Machine, l: Layout, frames: Option<nat>, addr: nat, size: nat) {
    && l.size <= size && l.align <= size
    && (Among(FreeIn(m.store), Block(addr, size)) || (frames == Some(addr) && size == u.total - m.total))
  }

  /** One more outstanding block, at the address answered, of the least multiple of 8 that holds the request. */
  ghost predicate Recorded(m: Machine, u: Machine, l: Layout, addr: nat) {
    && u.live != [] && u.live[..|u.live| - 1] == m.live
    && var z := u.live[|u.live| - 1].size;
      && u.live[|u.live| - 1] == Block(addr, z) && u.used == m.used + z
      && l.size <= z && l.align <= z && z % 8 == 0 && (z < l.size + 8 || z < l.align + 8)
  }

  /**
    In such a run, a pointer answered to a request is the start of a free block, or of the pages just granted, with at
    least the bytes requested; what is recorded as outstanding, and counted as used, is the least multiple of 8 that
    holds the request's size and alignment.
   */
  lemma RunServes(ops: seq<Op>, l: Layout, frames: Option<nat>)
    requires Permitted(ops) && l.align > 0 && AllocClear(Run(ops), l, frames)
    ensures var m := RunMachine(ops);
      var (u, a) := AllocMachine(m, l, frames);
      a.Pointer? ==> Recorded(m, u, l, a.addr) && exists size: nat :: Source(m, u, l, frames, a.addr, size)
  {
    hide Permitted, Inv, Stored, Spaced, FreeIn, AllocMachine, Alloc, AllocClear, Recorded, Source;
    RunMirrors(ops);
    InvClassed(Run(ops));
    AllocMirrors(RunMachine(ops), Run(ops), l, frames);
    NotInitialised(RunMachine(ops), Run(ops), l, frames);
    if Alloc(Run(ops), l, frames).1.Some? {
      MachineServes(RunMachine(ops), AllocMachine(RunMachine(ops), l, frames).0, Run(ops), l, frames);
    }
  }

  lemma MachineServes(m: Machine, u: Machine, h: Heap, l: Layout, frames: Option<nat>)
    requires Mirrors(m, h) && Classed(h.lists) && l.align > 0 && h.initialized && Alloc(h, l, frames).1.Some?
    requires Mirrors(u, Alloc(h, l, frames).0)
    ensures var addr := Alloc(h, l, frames).1.value;
      Recorded(m, u, l, addr) && exists size: nat :: Source(m, u, l, frames, addr, size)
  {
    hide Stored, Spaced, FreeIn, Alloc, Classed, RoundTo8, Among;
    FreeInIs(m.store, h.lists);
    Rounded(l);
    var size := ListServes(h, l, frames);
    assert u.live[..|u.live| - 1] == h.live;
    assert Source(m, u, l, frames, Alloc(h, l, frames).1.value, size);
  }

  lemma TryServes(h: Heap, l: Layout) returns (size: nat)
    requires Classed(h.lists) && l.align > 0
    ensures var (g, r) := TryAlloc(h, l);
      r.Some? ==>
        && g.live == h.live + [Block(r.value, RoundTo8(l))] && g.used == h.used + RoundTo8(l) && g.total == h.total
        && RoundTo8(l) <= size && Among(h.lists, Block(r.value, size))
  {
    hide RemoveBestFit, Classed, RoundTo8, Among;
    TakenAmong(h.lists, RoundTo8(l), l.align);
    var b := RemoveBestFit(h.lists, RoundTo8(l), l.align).1;
    size := if b.Some? then b.value.size else 0;
  }

  lemma ListServes(h: Heap, l: Layout, frames: Option<nat>) returns (size: nat)
    requires Classed(h.lists) && l.align > 0 && h.initialized && Alloc(h, l, frames).1.Some?
    ensures var (g, r) := Alloc(h, l, frames);
      && g.live == h.live + [Block(r.value, RoundTo8(l))] && g.used == h.used + RoundTo8(l) && RoundTo8(l) <= size
      && (Among(h.lists, Block(r.value, size)) || (frames == Some(r.value) && size == g.total - h.total))
  {
    hide TryAlloc, Classed, RoundTo8, RoundToPage, Insert, Among;
    size := TryServes(h, l);
    if TryAlloc(h, l).1 == None && frames.Some? {
      var page := RoundToPage(l);
      InsertKeeps(h.lists, frames.value, page);
      size := TryServes(Grown(h, frames.value, page), l);
      InsertAmong(h.lists, frames.value, page, Block(Alloc(h, l, frames).1.value, size));
    }
  }

  lemma InsertAmong(lists: Lists, addr: nat, size: nat, b: Block)
    requires Classed(lists) && Among(Insert(lists, addr, size), b)
    ensures Among(lists, b) || b == Block(addr, size)
  {
    hide ListIndex;
    var u := Insert(lists, addr, size);
    var i, k :| 0 <= i < |u| && 0 <= k < |u[i]| && u[i][k] == b;
    if b != Block(addr, size) {
      assert lists[i][if u[i] == lists[i] then k else k - 1] == b;
    }
  }

  /**
    A request takes from the free bytes the whole block it is served from, or exactly its own when more than 32 are left
    over.
   */
  lemma RunTakes(ops: seq<Op>, l: Layout)
    requires Permitted(ops) && l.align > 0 && RestClear(Run(ops).lists, RoundTo8(l), l.align)
    requires TryMachine(RunMachine(ops), l).1.Pointer?
    ensures var m, u := RunMachine(ops), TryMachine(RunMachine(ops), l).0;
      var z := u.used - m.used;
      exists b: Block :: Among(FreeIn(m.store), b) && b.addr == TryMachine(m, l).1.addr && z <= b.size
        && FreeBytes(FreeIn(u.store)) == FreeBytes(FreeIn(m.store)) - (if b.size > z + 32 then z else b.size)
  {
    hide Permitted, Classed, FreeBytes, Stored, Spaced, FreeIn, TryMachine, RemoveBestFit, RoundTo8, RestClear, Among;
    RunMirrors(ops);
    var m, h := RunMachine(ops), Run(ops);
    TryMirrorsIff(m, h, l);
    FreeInIs(m.store, h.lists);
    FreeInIs(TryMachine(m, l).0.store, TryAlloc(h, l).0.lists);
    TakenAmong(h.lists, RoundTo8(l), l.align);
    RemoveBytes(h.lists, RoundTo8(l), l.align);
  }

  // ---------- Initialisation

  lemma StepInitialised(m: Machine, op: Op)
    ensures StepMachine(m, op).initialized <==> m.initialized || op.DoInit?
    ensures !m.initialized && (op.DoAlloc? || op.DoDealloc?) ==> StepMachine(m, op) == m
    ensures !m.initialized && op.DoAlloc? && op.layout.align > 0 ==> AllocMachine(m, op.layout, op.frames).1 == Null
  {
    hide TryMachine, InsertRecord, RoundTo8, RoundToPage;
    if op.DoAlloc? && op.layout.align > 0 {
      TryInitialised(m, op.layout);
      if op.frames.Some? {
        TryInitialised(GrownMachine(m, op.frames.value, RoundToPage(op.layout)), op.layout);
      }
    }
  }

  lemma TryInitialised(m: Machine, l: Layout)
    requires l.align > 0
    ensures TryMachine(m, l).0.initialized == m.initialized
  {
    hide TakeFit, RoundTo8;
  }

  /** The heap serves requests exactly once some call has initialised it, in any run at all. */
  lemma {:induction false} RunInitialised(ops: seq<Op>)
    ensures RunMachine(ops).initialized <==> exists k :: 0 <= k < |ops| && ops[k].DoInit?
    decreases |ops|
  {
    hide StepMachine;
    if ops != [] {
      var prefix, last := ops[..|ops| - 1], |ops| - 1;
      RunInitialised(prefix);
      StepInitialised(RunMachine(prefix), ops[last]);
      if k :| 0 <= k < |ops| && ops[k].DoInit? {
        assert k < last ==> prefix[k].DoInit?;
      }
      if k :| 0 <= k < |prefix| && prefix[k].DoInit? {
        assert ops[k].DoInit?;
      }
    }
  }
}
