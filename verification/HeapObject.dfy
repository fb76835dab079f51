/** The heap as an object: list heads are an array, and records are read and written in memory. */
module HeapObject {
  import opened Options
  import opened FreeLists
  import opened FreeRecords
  import opened KernelHeap
  import opened HeapMemory

  class KernelAllocator {
    const heads: array<Option<nat>>
    var memory: Memory
    var totalBytes: nat
    var usedBytes: int
    var pagesAllocated: nat
    var initialized: bool
    ghost var live: seq<Block>
    ghost var waste: nat
    ghost var unsplit: nat
    ghost var initial: nat

    ghost function Lists(): Store
      reads `memory, heads
    {
      Store(memory, heads[..])
    }

    ghost function View(): Machine
      reads this, heads
    {
      Machine(Lists(), totalBytes, usedBytes, pagesAllocated, initialized, live, waste, unsplit, initial)
    }

    constructor ()
      ensures View() == NewMachine() && fresh(heads)
    {
      heads := new Option<nat>[MAX_FREE_LISTS](_ => None);
      memory := map[];
      totalBytes, usedBytes, pagesAllocated, initialized := 0, 0, 0, false;
      live, waste, unsplit, initial := [], 0, 0, 0;
      new;
      assert heads[..] == NewMachine().store.heads;
    }

    /** `insert`: writes the record at the block's address and makes it the head of the list of its size class. */
    method InsertBlock(addr: nat, size: nat)
      requires heads.Length == MAX_FREE_LISTS
      modifies `memory, heads
      ensures Lists() == InsertRecord(old(Lists()), addr, size)
    {
      hide Put;
      var index := ListIndex(size);
      if index.Some? {
        memory := Put(memory, addr, Record(heads[index.value], size));
        heads[index.value] := Some(addr);
      }
    }

    /** Writes the link that led to the record `a`, in the head or in the record before it. */
    method Unhook(i: nat, prev: Option<nat>, a: nat)
      requires i < heads.Length
      modifies `memory, heads
      ensures Lists() == Detach(old(Lists()), i, prev, a)
    {
      hide Put;
      var r := Read(memory, a);
      memory := Put(memory, a, Record(None, r.size));
      if prev.Some? {
        memory := Put(memory, prev.value, Record(r.next, Read(memory, prev.value).size));
      } else {
        heads[i] := r.next;
      }
    }

    /** The inner loop of `remove_best_fit`: follows the records of list `i` until one fits. */
    method WalkRecords(i: nat, size: nat, align: nat) returns (found: Found)
      requires i < heads.Length && align > 0
      ensures found == WalkList(Lists(), i, size, align)
    {
      hide Fits;
      var prev, cur := None, heads[i];
      var left := |memory| + 1;
      while cur.Some?
        invariant left >= 0
        invariant WalkList(Lists(), i, size, align) == Walk(memory, prev, cur, size, align, left)
        decreases left
      {
        if left == 0 { return Loops; }
        var record := Read(memory, cur.value);
        if Fits(Block(cur.value, record.size), size, align) { return Hit(prev, cur.value); }
        prev, cur, left := cur, record.next, left - 1;
      }
      found := Miss;
    }

    /** `remove_best_fit`: walks the lists from the request's class upwards and takes the first block that fits. */
    method TakeBestFit(size: nat, align: nat) returns (r: Reply)
      requires heads.Length == MAX_FREE_LISTS && align > 0
      modifies `memory, heads
      ensures (Lists(), r) == TakeFit(old(Lists()), size, align)
    {
      hide WalkList, Detach, InsertRecord, ListIndex;
      var i := StartList(size);
      while i < MAX_FREE_LISTS
        invariant Lists() == old(Lists())
        invariant Seek(old(Lists()), size, align, StartList(size)) == Seek(old(Lists()), size, align, i)
      {
        var found := WalkRecords(i, size, align);
        if found == Loops { return Hung; }
        if found.Hit? {
          var block := Block(found.at, Read(memory, found.at).size);
          Unhook(i, found.prev, found.at);
          if block.size > size + 32 {
            InsertBlock(block.addr + 24 * size, block.size - size);
          }
          return Got(block);
        }
        i := i + 1;
      }
      r := Nothing;
    }

    /** `try_alloc_from_free_list`. */
    method TryAllocate(l: Layout) returns (r: Answer)
      requires heads.Length == MAX_FREE_LISTS && l.align > 0
      modifies this, heads
      ensures (View(), r) == TryMachine(old(View()), l)
    {
      hide TakeFit, RoundTo8;
      var size := RoundTo8(l);
      var reply := TakeBestFit(size, l.align);
      NothingTaken(old(Lists()), [], size, l.align);
      if reply == Hung { return Stuck; }
      if reply == Nothing { return Null; }
      usedBytes := usedBytes + size;
      live := live + [Block(reply.block.addr, size)];
      if !Splits(reply.block, size) {
        unsplit := unsplit + 1;
        if size <= reply.block.size { waste := waste + (reply.block.size - size); }
      }
      r := Pointer(reply.block.addr);
    }

    /** `alloc`, with `expand_heap`; `frames` is the answer of `alloc_pages`. */
    method Allocate(l: Layout, frames: Option<nat>) returns (r: Answer)
      requires heads.Length == MAX_FREE_LISTS && l.align > 0
      modifies this, heads
      ensures (View(), r) == AllocMachine(old(View()), l, frames)
    {
      hide TryMachine, InsertRecord;
      if !initialized { return Null; }
      TryNothing(View(), l);
      r := TryAllocate(l);
      if r != Null || frames == None { return; }
      var size := RoundToPage(l);
      pagesAllocated := pagesAllocated + (size + 4095) / 4096;
      InsertBlock(frames.value, size);
      totalBytes := totalBytes + size;
      r := TryAllocate(l);
    }

    lemma TryNothing(m: Machine, l: Layout)
      requires l.align > 0
      ensures TryMachine(m, l).1 == Null ==> TryMachine(m, l).0 == m
    {
    }

    /** `dealloc` of outstanding allocation number `k`. */
    method Deallocate(ptr: nat, l: Layout, ghost k: nat)
      requires heads.Length == MAX_FREE_LISTS && k < |live|
      modifies this, heads
      ensures View() == DeallocMachine(old(View()), ptr, l, k)
    {
      hide RoundTo8, InsertRecord;
      if !initialized { return; }
      var size := RoundTo8(l);
      usedBytes := usedBytes - size;
      live := live[..k] + live[k + 1..];
      InsertBlock(ptr, size);
    }

    /** `init`. */
    method Initialise(start: nat, size: nat)
      requires heads.Length == MAX_FREE_LISTS
      modifies this, heads
      ensures View() == InitMachine(old(View()), start, size)
    {
      hide InsertRecord;
      InsertBlock(start, size);
      totalBytes := size;
      initialized := true;
      initial := size;
    }
  }
}
