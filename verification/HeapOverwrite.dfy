/**
  Two runs of the heap of src/memory/heap.rs in which the rest of a split block is written over the record of another
  free block, and what becomes of the byte account.
 */
module HeapOverwrite {
  import opened Options
  import opened FreeLists
  import opened FreeRecords
  import opened KernelHeap
  import opened HeapMemory

  const FIRST: nat := 0x13000
  const PAGE: nat := 0x10000

  function Empty(): seq<Option<nat>> {
    seq(MAX_FREE_LISTS, _ => None)
  }

  lemma Classes()
    ensures ListIndex(64) == Some(6) && ListIndex(512) == Some(9) && ListIndex(3584) == Some(11)
        && ListIndex(4096) == Some(12)
  {
    assert Log2(1) == 0 && Log2(3) == 1 && Log2(2) == 1 && Log2(7) == 2 && Log2(4) == 2 && Log2(14) == 3
        && Log2(8) == 3;
    assert Log2(28) == 4 && Log2(16) == 4 && Log2(56) == 5 && Log2(32) == 5 && Log2(112) == 6 && Log2(64) == 6;
    assert Log2(224) == 7 && Log2(128) == 7 && Log2(448) == 8 && Log2(256) == 8 && Log2(896) == 9 && Log2(512) == 9;
    assert Log2(1792) == 10 && Log2(1024) == 10 && Log2(3584) == 11 && Log2(2048) == 11 && Log2(4096) == 12;
  }

  lemma Rounds()
    ensures RoundTo8(Layout(64, 8)) == 64 && RoundTo8(Layout(512, 8)) == 512 && RoundTo8(Layout(4096, 8)) == 4096
    ensures RoundToPage(Layout(4096, 8)) == 4096
  {
  }

  lemma Aligned(size: nat, request: nat)
    ensures Fits(Block(FIRST, size), request, 8) <==> request <= size
    ensures Fits(Block(PAGE, size), request, 8) <==> request <= size
  {
  }

  /** Empty lists are passed over. */
  lemma {:induction false} SeekSkips(s: Store, size: nat, align: nat, i: nat, j: nat)
    requires align > 0 && i <= j <= |s.heads| && forall k :: i <= k < j ==> s.heads[k] == None
    ensures Seek(s, size, align, i) == Seek(s, size, align, j)
    decreases j - i
  {
    hide Fits;
    if i < j {
      SeekSkips(s, size, align, i + 1, j);
    }
  }

  /** A request is served from the head of the first list that is not empty, if that block fits. */
  lemma TakesHead(s: Store, size: nat, i: nat, a: nat)
    requires StartList(size) <= i < |s.heads| && s.heads[i] == Some(a)
    requires forall k :: StartList(size) <= k < i ==> s.heads[k] == None
    requires Fits(Block(a, Read(s.memory, a).size), size, 8)
    ensures var b := Block(a, Read(s.memory, a).size);
      var t := Detach(s, i, None, a);
      TakeFit(s, size, 8) == (if b.size > size + 32 then InsertRecord(t, a + 24 * size, b.size - size) else t, Got(b))
  {
    hide Fits, Detach, InsertRecord, ListIndex;
    SeekSkips(s, size, 8, StartList(size), i);
  }

  lemma TakesNothing(s: Store, size: nat)
    requires forall k :: 0 <= k < |s.heads| ==> s.heads[k] == None
    ensures TakeFit(s, size, 8) == (s, Nothing)
  {
    hide Fits, ListIndex;
    if StartList(size) < |s.heads| {
      SeekSkips(s, size, 8, StartList(size), |s.heads|);
    }
  }

  // ---------- One block in, one block out

  function One(m: Memory, i: nat, a: nat): Store
    requires i < MAX_FREE_LISTS
  {
    Store(m, Empty()[i := Some(a)])
  }

  /** A block put into an empty heap and taken out whole leaves its record behind and the lists empty. */
  lemma InAndOut(m: Memory, a: nat, size: nat, i: nat)
    requires (a == FIRST || a == PAGE) && ListIndex(size) == Some(i)
    ensures i < MAX_FREE_LISTS
    ensures InsertRecord(Store(m, Empty()), a, size) == One(Put(m, a, Record(None, size)), i, a)
    ensures TakeFit(One(Put(m, a, Record(None, size)), i, a), size, 8)
      == (Store(Put(Put(m, a, Record(None, size)), a, Record(None, size)), Empty()), Got(Block(a, size)))
  {
    hide Fits, Log2;
    Aligned(size, size);
    var s := One(Put(m, a, Record(None, size)), i, a);
    TakesHead(s, size, i, a);
    assert Empty()[i := Some(a)][i := None] == Empty();
  }

  /** The two records far apart. */
  function Two(first: Record, page: Record): Memory {
    map[FIRST := first, PAGE := page]
  }

  lemma PutTwo(first: Record, page: Record, r: Record)
    ensures Put(Two(first, page), FIRST, r) == Two(r, page) && Put(Two(first, page), PAGE, r) == Two(first, r)
    ensures Put(map[], FIRST, r) == map[FIRST := r] && Put(map[FIRST := first], FIRST, r) == map[FIRST := r]
    ensures Put(map[FIRST := first], PAGE, r) == Two(first, r)
  {
  }

  // ---------- The common part of the two runs

  /** The size of the initial stretch is 64 or 4096 bytes. */
  predicate Stretch(n: nat) {
    n == 64 || n == 4096
  }

  function Setup(n: nat): seq<Op> {
    [DoInit(FIRST, n), DoAlloc(Layout(n, 8), None), DoAlloc(Layout(4096, 8), Some(PAGE)),
     DoDealloc(FIRST, Layout(n, 8), 0), DoDealloc(PAGE, Layout(4096, 8), 0)]
  }

  function Fresh(n: nat): Record {
    Record(None, n)
  }

  lemma AfterInit(n: nat, i: nat)
    requires ListIndex(n) == Some(i)
    ensures i < MAX_FREE_LISTS
    ensures StepMachine(NewMachine(), DoInit(FIRST, n))
      == Machine(One(map[FIRST := Fresh(n)], i, FIRST), n, 0, 0, true, [], 0, 0, n)
  {
    hide Log2, Put;
    PutTwo(Fresh(n), Fresh(n), Fresh(n));
    InAndOut(map[], FIRST, n, i);
  }

  lemma AfterFirst(n: nat, i: nat)
    requires Stretch(n) && ListIndex(n) == Some(i)
    ensures i < MAX_FREE_LISTS
    ensures StepMachine(Machine(One(map[FIRST := Fresh(n)], i, FIRST), n, 0, 0, true, [], 0, 0, n),
        DoAlloc(Layout(n, 8), None))
      == Machine(Store(map[FIRST := Fresh(n)], Empty()), n, n, 0, true, [Block(FIRST, n)], 0, 1, n)
  {
    hide Log2, Put, TakeFit, One, Empty;
    Rounds();
    PutTwo(Fresh(n), Fresh(n), Fresh(n));
    InAndOut(map[], FIRST, n, i);
  }

  lemma AfterPage(n: nat)
    ensures StepMachine(Machine(Store(map[FIRST := Fresh(n)], Empty()), n, n, 0, true, [Block(FIRST, n)], 0, 1, n),
                        DoAlloc(Layout(4096, 8), Some(PAGE)))
      == Machine(Store(Two(Fresh(n), Fresh(4096)), Empty()), n + 4096, n + 4096, 1, true,
                 [Block(FIRST, n), Block(PAGE, 4096)], 0, 2, n)
  {
    hide Log2, Put, TakeFit, One, Two;
    Rounds();
    Classes();
    var m := map[FIRST := Fresh(n)];
    TakesNothing(Store(m, Empty()), 4096);
    PutTwo(Fresh(n), Fresh(4096), Fresh(4096));
    InAndOut(m, PAGE, 4096, 12);
  }

  /** The record of the page block once both blocks are free. */
  function PageRecord(n: nat): Record {
    Record(if n == 4096 then Some(FIRST) else None, 4096)
  }

  function BothFree(n: nat): Machine
    requires Stretch(n)
  {
    Machine(Store(Two(Fresh(n), PageRecord(n)), Empty()[if n == 64 then 6 else 12 := Some(FIRST)][12 := Some(PAGE)]),
            n + 4096, 0, 1, true, [], 0, 2, n)
  }

  lemma FirstFreed(n: nat)
    requires Stretch(n)
    ensures var m := Machine(Store(Two(Fresh(n), Fresh(4096)), Empty()), n + 4096, n + 4096, 1, true,
                             [Block(FIRST, n), Block(PAGE, 4096)], 0, 2, n);
      StepMachine(m, DoDealloc(FIRST, Layout(n, 8), 0)).live == [Block(PAGE, 4096)]
  {
    hide InsertRecord;
  }

  lemma AfterFrees(n: nat)
    requires Stretch(n)
    ensures var m := Machine(Store(Two(Fresh(n), Fresh(4096)), Empty()), n + 4096, n + 4096, 1, true,
                             [Block(FIRST, n), Block(PAGE, 4096)], 0, 2, n);
      StepMachine(StepMachine(m, DoDealloc(FIRST, Layout(n, 8), 0)), DoDealloc(PAGE, Layout(4096, 8), 0)) == BothFree(n)
  {
    hide Log2, Put, Two;
    Rounds();
    Classes();
    PutTwo(Fresh(n), Fresh(4096), Fresh(n));
    PutTwo(Fresh(n), Fresh(4096), PageRecord(n));
  }

  lemma MachineSnoc(ops: seq<Op>, op: Op)
    ensures RunMachine(ops + [op]) == StepMachine(RunMachine(ops), op)
    ensures Matching(ops + [op]) <==> Matching(ops) && Matches(RunMachine(ops), op)
  {
    hide StepMachine, Matches;
    assert (ops + [op])[..|ops|] == ops;
  }

  lemma SetupRun(n: nat)
    requires Stretch(n)
    ensures RunMachine(Setup(n)) == BothFree(n) && Matching(Setup(n))
  {
    hide StepMachine, BothFree, ListIndex, Two, One, Empty, RoundTo8;
    Classes();
    Rounds();
    FirstFreed(n);
    var i, ops := if n == 64 then 6 else 12, Setup(n);
    AfterInit(n, i);
    AfterFirst(n, i);
    AfterPage(n);
    AfterFrees(n);
    MachineSnoc([], ops[0]);
    MachineSnoc([ops[0]], ops[1]);
    MachineSnoc([ops[0], ops[1]], ops[2]);
    MachineSnoc([ops[0], ops[1], ops[2]], ops[3]);
    MachineSnoc([ops[0], ops[1], ops[2], ops[3]], ops[4]);
    assert [] + [ops[0]] == [ops[0]] && [ops[0]] + [ops[1]] == [ops[0], ops[1]];
    assert [ops[0], ops[1]] + [ops[2]] == [ops[0], ops[1], ops[2]];
    assert [ops[0], ops[1], ops[2]] + [ops[3]] == [ops[0], ops[1], ops[2], ops[3]];
    assert [ops[0], ops[1], ops[2], ops[3]] + [ops[4]] == ops;
  }

  // ---------- The overwriting allocation

  function Overwriting(n: nat): seq<Op> {
    Setup(n) + [DoAlloc(Layout(512, 8), None)]
  }

  /** Two lists now lead to the record at `FIRST`, and its size is that of the rest. */
  function Overwritten(n: nat): Machine
    requires Stretch(n)
  {
    Machine(Store(Two(Fresh(3584), Fresh(4096)), Empty()[if n == 64 then 6 else 12 := Some(FIRST)][11 := Some(FIRST)]),
            n + 4096, 512, 1, true, [Block(PAGE, 512)], 0, 2, n)
  }

  lemma TakeFromPage(n: nat)
    requires Stretch(n)
    ensures TakeFit(BothFree(n).store, 512, 8) == (Overwritten(n).store, Got(Block(PAGE, 4096)))
  {
    hide Log2, Put, Two, Fits;
    Classes();
    Aligned(4096, 512);
    var s := BothFree(n).store;
    ReadTwo(Fresh(n), PageRecord(n));
    TakesHead(s, 512, 12, PAGE);
    PutTwo(Fresh(n), PageRecord(n), Fresh(4096));
    PutTwo(Fresh(n), Fresh(4096), Fresh(3584));
    assert PAGE + 24 * 512 == FIRST;
    assert Empty()[6 := Some(FIRST)][12 := Some(PAGE)][12 := None] == Empty()[6 := Some(FIRST)];
    assert Empty()[12 := Some(FIRST)][12 := Some(PAGE)][12 := Some(FIRST)] == Empty()[12 := Some(FIRST)];
  }

  lemma ReadTwo(first: Record, page: Record)
    ensures Read(Two(first, page), FIRST) == first && Read(Two(first, page), PAGE) == page && |Two(first, page)| == 2
  {
  }

  lemma OverwritingRun(n: nat)
    requires Stretch(n)
    ensures RunMachine(Overwriting(n)) == Overwritten(n) && Matching(Overwriting(n))
  {
    hide TakeFit, RunMachine, Matching, Two, Empty;
    SetupRun(n);
    MachineSnoc(Setup(n), DoAlloc(Layout(512, 8), None));
    Rounds();
    TakeFromPage(n);
  }

  /** The lists read off memory: one block, reached twice. */
  lemma OverwrittenLists(n: nat)
    requires Stretch(n)
    ensures var lists := FreeIn(Overwritten(n).store);
      && |lists| == MAX_FREE_LISTS && FreeBytes(lists) == 7168
      && lists[11] == [Block(FIRST, 3584)] && lists[if n == 64 then 6 else 12] == [Block(FIRST, 3584)]
  {
    hide Two, FreeBytes;
    var b := [Block(FIRST, 3584)];
    var j := if n == 64 then 6 else 12;
    var none: Lists := New().lists;
    ReadTwo(Fresh(3584), Fresh(4096));
    GatherOne(Two(Fresh(3584), Fresh(4096)));
    assert FreeIn(Overwritten(n).store) == none[j := b][11 := b];
    EmptyBytes(none);
    assert ListBytes([]) == 0 && ListBytes(b) == 3584;
    FreeBytesUpdate(none, j, b);
    FreeBytesUpdate(none[j := b], 11, b);
  }

  lemma GatherOne(m: Memory)
    requires Read(m, FIRST) == Fresh(3584)
    ensures Gather(m, Some(FIRST), 2) == [Block(FIRST, 3584)] && Gather(m, None, 2) == []
  {
    assert Gather(m, None, 1) == [];
  }

  /**
    Used and free bytes fall short of the total by more than 32 bytes for each unsplit allocation, or exceed it; and a
    block is in the list of another size class.
   */
  lemma OverwriteBreaksAccount(n: nat)
    requires Stretch(n)
    ensures Matching(Overwriting(n))
    ensures var m := RunMachine(Overwriting(n));
      var lists := FreeIn(m.store);
      && !Classed(lists)
      && (n == 4096 ==> m.used + FreeBytes(lists) + 32 * m.unsplit < m.total)
      && (n == 64 ==> m.used + FreeBytes(lists) > m.total)
  {
    hide RunMachine, Matching, FreeIn, FreeBytes, Two, Empty, Overwriting;
    OverwritingRun(n);
    OverwrittenLists(n);
    Classes();
    var lists: Lists := FreeIn(Overwritten(n).store);
    var j := if n == 64 then 6 else 12;
    assert lists[j] == [Block(FIRST, 3584)] && ListIndex(lists[j][0].size) == Some(11);
  }
}
