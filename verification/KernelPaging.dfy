/** The operations of src/arch/paging.rs on tables that are updated in place. */
module KernelPaging {
  import opened Options
  import opened PageEntry
  import opened VirtualAddress
  import opened Paging
  import opened FlatPaging
  import opened PageRange
  import PT = PageTree

  /** Where one level of the descent ends up. */
  lemma DownArrives(s: Spot, i: nat, b: Ptr)
    requires Slot(s.space, s.table, i) && Usable(b.bits) && b !in s.space.tables
    ensures var e := s.space.tables[s.table][i];
      Down(s, i, b) ==
      if Present(e.bits) then Spot(s.space, Ptr(Addr(e.bits))) else Spot(PT.Grow(ENTRY, s.space, s.table, i, b), b)
  {
    hide PageEntry.Present, PageEntry.Addr, PageEntry.Usable, PageEntry.LinkEntry;
    LinkFollows(s.space.tables[s.table][i], b);
  }

  lemma GrownEntry(t: Space, a: Ptr, i: nat, b: Ptr)
    requires Slot(t, a, i) && Usable(b.bits) && b !in t.tables
    ensures var u := PT.Grow(ENTRY, t, a, i, b); Slot(u, a, i) && Ptr(Addr(u.tables[a][i].bits)) == b
  {
    hide PageEntry.Addr, PageEntry.Usable, PageEntry.LinkEntry;
    LinkReadsBack(t.tables[a][i].bits, b.bits);
  }

  lemma WriteBesideNew(t: Space, a: Ptr, i: nat, b: Ptr)
    requires Slot(t, a, i) && b !in t.tables
    ensures var u := PT.Tree(t.root, t.tables[b := PT.Blank(ENTRY)], t.owner[b := t.owner[a] + [i]]);
      PT.Write(u, a, i, Link(t.tables[a][i], b)) == PT.Grow(ENTRY, t, a, i, b)
  {
    hide Link;
    assert PT.Grow(ENTRY, t, a, i, b).tables ==
      t.tables[b := PT.Blank(ENTRY)][a := t.tables[a][i := Link(t.tables[a][i], b)]];
  }

  lemma SameWrite(t: Space, a: Ptr, i: nat)
    requires Slot(t, a, i)
    ensures PT.Write(t, a, i, t.tables[a][i]) == t
  {
    assert t.tables[a][i := t.tables[a][i]] == t.tables[a];
    assert t.tables[a := t.tables[a]] == t.tables;
  }

  lemma ZeroAbsent()
    ensures !Present(0)
  {
  }

  lemma WriteKeepsTables(t: Space, a: Ptr, i: nat, e: Entry)
    requires Slot(t, a, i)
    ensures PT.Write(t, a, i, e).tables.Keys == t.tables.Keys
  {
  }

  lemma UnmapKeepsTables(t: Space, virt: nat)
    ensures Step(t, Unmap(virt)).tables.Keys == t.tables.Keys
  {
    hide VirtualAddress.Path, PT.Reach, PT.Write;
    var p := Path(virt);
    var r := PT.Reach(ENTRY, t, p[..3]);
    if r.Some? && Slot(t, r.value, p[3]) {
      WriteKeepsTables(t, r.value, p[3], Apply(Unmap(virt), t.tables[r.value][p[3]]));
    }
  }

  lemma RunEmpty(t: Space)
    ensures Run(t, []) == t
  {
  }

  lemma RunSnoc(t: Space, ops: seq<Op>, op: Op)
    ensures Run(t, ops + [op]) == Step(Run(t, ops), op)
    ensures Permitted(t, ops + [op]) <==> Permitted(t, ops) && Allowed(Run(t, ops), op)
  {
    hide Step, Allowed;
    assert (ops + [op])[..|ops|] == ops;
  }

  /** If a whole range may be mapped then each round of the loop may run. */
  lemma {:induction false} RoundPermitted(t: Space, virt: nat, phys: bv64, flags: bv64, boxes: nat -> Boxes, n: nat,
      i: nat)
    requires i < n && Permitted(t, MapOps(virt, phys, flags, boxes, n))
    ensures Fresh(Run(t, MapOps(virt, phys, flags, boxes, i)), boxes(i))
  {
    hide Run, Permitted, Fresh, VirtualAddress.At, PhysAt;
    var ops := MapOps(virt, phys, flags, boxes, n - 1);
    RunSnoc(t, ops, Map(At(virt, n - 1), PhysAt(phys, n - 1), flags, boxes(n - 1)));
    if i < n - 1 {
      RoundPermitted(t, virt, phys, flags, boxes, n - 1, i);
    }
  }

  class PageTables {
    const root: Ptr
    var memory: map<Ptr, array<Entry>>
    ghost var owner: map<Ptr, seq<nat>>

    ghost predicate Separate()
      reads this
    {
      forall a, b :: a in memory && b in memory && memory[a] == memory[b] ==> a == b
    }

    ghost function Tables(): map<Ptr, seq<Entry>>
      reads this, memory.Values
    {
      map a | a in memory :: memory[a][..]
    }

    /** The tree that memory holds. */
    ghost function View(): Space
      reads this, memory.Values
    {
      PT.Tree(root, Tables(), owner)
    }

    ghost predicate Valid()
      reads this, memory.Values
    {
      Separate() && Sound(View())
    }

    constructor (pml4: Ptr)
      ensures Valid() && root == pml4 && View() == EmptySpace(pml4) && fresh(memory.Values)
    {
      root := pml4;
      var table := new Entry[PT.FANOUT](_ => Entry(0));
      memory := map[pml4 := table];
      owner := map[pml4 := []];
      new;
      assert memory[pml4] == table && table in memory.Values;
      assert Tables()[pml4] == PT.Blank(ENTRY);
      assert Tables() == EmptySpace(pml4).tables;
      EmptyAgrees(pml4);
    }

    /** Writes one entry in place. */
    method Store(a: Ptr, i: nat, e: Entry)
      requires Separate() && a in memory && a in owner && i < memory[a].Length
      modifies memory[a]
      ensures Separate() && View() == PT.Write(old(View()), a, i, e)
    {
      memory[a][i] := e;
      assert Tables()[a] == old(Tables())[a][i := e];
      assert Tables() == old(Tables())[a := old(Tables())[a][i := e]];
    }

    /** Allocates an empty table at `b`. */
    method NewTable(b: Ptr, ghost path: seq<nat>)
      requires Separate() && b !in memory
      modifies this
      ensures Separate()
      ensures View() == PT.Tree(root, old(Tables())[b := PT.Blank(ENTRY)], old(owner)[b := path])
      ensures b in memory && memory == old(memory)[b := memory[b]]
      ensures memory.Values == old(memory.Values) + {memory[b]} && fresh(memory[b])
    {
      var table := new Entry[PT.FANOUT](_ => Entry(0));
      memory := memory[b := table];
      owner := owner[b := path];
      assert table[..] == PT.Blank(ENTRY);
      assert Tables() == old(Tables())[b := PT.Blank(ENTRY)];
      assert memory.Values == old(memory.Values) + {memory[b]} by {
        assert forall a :: a in old(memory) ==> a in memory && memory[a] == old(memory)[a];
      }
    }

    /** Hangs a fresh table `b` under entry `i` of `a`. */
    method Hang(a: Ptr, i: nat, b: Ptr)
      requires Separate() && Slot(View(), a, i) && b !in memory
      modifies this, memory.Values
      ensures Separate() && View() == PT.Grow(ENTRY, old(View()), a, i, b)
      ensures fresh(memory.Values - old(memory.Values))
    {
      hide Link, PT.Write, PT.Grow;
      ghost var before := View();
      var e := memory[a][i];
      assert before.tables[a][i] == e;
      NewTable(b, owner[a] + [i]);
      Store(a, i, Link(e, b));
      WriteBesideNew(before, a, i, b);
    }

    /** One level of the descent in `map_page`: follows entry `i`, hanging a fresh table there if it is not present. */
    method EnterTable(a: Ptr, i: nat, b: Ptr) returns (c: Ptr)
      requires Valid() && Slot(View(), a, i) && |owner[a]| < 3 && Usable(b.bits) && b !in memory
      modifies this, memory.Values
      ensures Valid() && Spot(View(), c) == Down(Spot(old(View()), a), i, b)
      ensures a in old(owner) && c in owner && owner[c] == old(owner)[a] + [i]
      ensures forall k: nat :: k < PT.FANOUT ==> Slot(View(), c, k)
      ensures memory.Keys <= old(memory.Keys) + {b}
      ensures fresh(memory.Values - old(memory.Values))
    {
      hide Sound, Link, Down, PageEntry.Present, PageEntry.Addr, PageEntry.Usable, PT.SameLeaves, PT.Grow;
      ghost var before := View();
      DownKeeps(Spot(before, a), i, b);
      DownArrives(Spot(before, a), i, b);
      var e := memory[a][i];
      assert before.tables[a][i] == e;
      if !Present(e.bits) {
        Hang(a, i, b);
        GrownEntry(before, a, i, b);
      }
      assert View().tables[a][i] == memory[a][i];
      c := Ptr(Addr(memory[a][i].bits));
    }

    /** The read-only walk shared by the other operations: the leaf table of `virt`, if every level is present. */
    method Walk(virt: nat) returns (r: Option<Ptr>)
      requires Valid()
      ensures r == PT.Reach(ENTRY, View(), Path(virt)[..3])
      ensures r.Some? ==> Slot(View(), r.value, Path(virt)[3]) && memory[r.value].Length == PT.FANOUT
    {
      hide PT.Sound, PT.Reach, PageEntry.Present, PageEntry.Addr, VirtualAddress.Path;
      var p := Path(virt);
      PT.ReachThree(ENTRY, View(), p);
      RootFacts(View());
      var e := memory[root][p[0]];
      if !Present(e.bits) { return None; }
      var pdpt := Ptr(Addr(e.bits));
      PT.TableFacts(ENTRY, View(), pdpt);
      e := memory[pdpt][p[1]];
      if !Present(e.bits) { return None; }
      var pd := Ptr(Addr(e.bits));
      PT.TableFacts(ENTRY, View(), pd);
      e := memory[pd][p[2]];
      if !Present(e.bits) { return None; }
      r := Some(Ptr(Addr(e.bits)));
      PT.TableFacts(ENTRY, View(), r.value);
    }

    /** The first two levels of the descent of `map_page`. */
    method EnterDirectory(virt: nat, boxes: Boxes) returns (pd: Ptr)
      requires Valid() && Fresh(View(), boxes)
      modifies this, memory.Values
      ensures Valid() && Spot(View(), pd) == Down(Down(Spot(old(View()), root), Path(virt)[0], boxes.pdpt),
          Path(virt)[1], boxes.pd)
      ensures pd in owner && |owner[pd]| == 2
      ensures forall k: nat :: k < PT.FANOUT ==> Slot(View(), pd, k)
      ensures memory.Keys <= old(memory.Keys) + {boxes.pdpt, boxes.pd}
      ensures fresh(memory.Values - old(memory.Values))
    {
      hide Sound, Down, VirtualAddress.Path, PageEntry.Usable;
      RootFacts(View());
      var pdpt := EnterTable(root, Path(virt)[0], boxes.pdpt);
      pd := EnterTable(pdpt, Path(virt)[1], boxes.pd);
    }

    /** The descent of `map_page`. */
    method EnterLeafTable(virt: nat, boxes: Boxes) returns (pt: Ptr)
      requires Valid() && Fresh(View(), boxes)
      modifies this, memory.Values
      ensures Valid() && Spot(View(), pt) == Descend(old(View()), virt, boxes)
      ensures fresh(memory.Values - old(memory.Values))
    {
      hide Sound, Down, VirtualAddress.Path, PageEntry.Usable;
      var pd := EnterDirectory(virt, boxes);
      pt := EnterTable(pd, Path(virt)[2], boxes.pt);
    }

    /** `map_page`: the boxes stand for the addresses of the tables that the call may allocate. */
    method MapPage(virt: nat, phys: bv64, flags: bv64, boxes: Boxes)
      requires Valid() && Fresh(View(), boxes)
      modifies this, memory.Values
      ensures Valid() && View() == Step(old(View()), Map(virt, phys, flags, boxes))
      ensures fresh(memory.Values - old(memory.Values))
    {
      hide Sound, Descend, Fresh, PT.SameLeaves, VirtualAddress.Path, PageEntry.SetAddr, PageEntry.SetFlags, PT.Write;
      ghost var t := View();
      StepLeaf(t, Map(virt, phys, flags, boxes));
      DescendKeeps(t, virt, boxes);
      var pt := EnterLeafTable(virt, boxes);
      var i := Path(virt)[3];
      var e := memory[pt][i];
      assert View().tables[pt][i] == e;
      Store(pt, i, Entry(SetFlags(SetAddr(e.bits, phys), flags)));
    }

    /** `unmap_page`: clears the flags of the leaf entry, present bit included, and keeps its address bits. */
    method UnmapPage(virt: nat)
      requires Valid()
      modifies memory.Values
      ensures Valid() && View() == Step(old(View()), Unmap(virt))
    {
      hide Sound, PT.Reach, VirtualAddress.Path, PageEntry.Present, PageEntry.SetFlags, PageEntry.SetAccessed,
          PageEntry.SetDirty;
      StepLeaf(View(), Unmap(virt));
      var pt := Walk(virt);
      if pt == None { return; }
      var i := Path(virt)[3];
      var e := memory[pt.value][i];
      assert View().tables[pt.value][i] == e;
      Store(pt.value, i, Entry(SetFlags(e.bits, 0)));
    }

    /** `set_page_flags`: only a present leaf entry takes the new flags. */
    method SetPageFlags(virt: nat, flags: bv64)
      requires Valid()
      modifies memory.Values
      ensures Valid() && View() == Step(old(View()), Op.SetPageFlags(virt, flags))
    {
      hide Sound, PT.Reach, VirtualAddress.Path, PageEntry.Present, PageEntry.SetFlags, PageEntry.SetAccessed,
          PageEntry.SetDirty;
      StepLeaf(View(), Op.SetPageFlags(virt, flags));
      var pt := Walk(virt);
      if pt == None { return; }
      var i := Path(virt)[3];
      var e := memory[pt.value][i];
      assert View().tables[pt.value][i] == e;
      if !Present(e.bits) {
        SameWrite(View(), pt.value, i);
        return;
      }
      Store(pt.value, i, Entry(SetFlags(e.bits, flags)));
    }

    /** `mark_page_accessed`. */
    method MarkPageAccessed(virt: nat)
      requires Valid()
      modifies memory.Values
      ensures Valid() && View() == Step(old(View()), MarkAccessed(virt))
    {
      hide Sound, PT.Reach, VirtualAddress.Path, PageEntry.Present, PageEntry.SetFlags, PageEntry.SetAccessed,
          PageEntry.SetDirty;
      StepLeaf(View(), MarkAccessed(virt));
      var pt := Walk(virt);
      if pt == None { return; }
      var i := Path(virt)[3];
      var e := memory[pt.value][i];
      assert View().tables[pt.value][i] == e;
      if !Present(e.bits) {
        SameWrite(View(), pt.value, i);
        return;
      }
      Store(pt.value, i, Entry(SetAccessed(e.bits, true)));
    }

    /** `mark_page_dirty`. */
    method MarkPageDirty(virt: nat)
      requires Valid()
      modifies memory.Values
      ensures Valid() && View() == Step(old(View()), MarkDirty(virt))
    {
      hide Sound, PT.Reach, VirtualAddress.Path, PageEntry.Present, PageEntry.SetFlags, PageEntry.SetAccessed,
          PageEntry.SetDirty;
      StepLeaf(View(), MarkDirty(virt));
      var pt := Walk(virt);
      if pt == None { return; }
      var i := Path(virt)[3];
      var e := memory[pt.value][i];
      assert View().tables[pt.value][i] == e;
      if !Present(e.bits) {
        SameWrite(View(), pt.value, i);
        return;
      }
      Store(pt.value, i, Entry(SetDirty(e.bits, true)));
    }

    /** `translate_virt_to_phys`. */
    method TranslateVirtToPhys(virt: nat) returns (r: Option<bv64>)
      requires Valid()
      ensures r == Translate(View(), virt)
    {
      hide Sound, PT.Reach, VirtualAddress.Path, PageEntry.Present, PageEntry.Frame, PageEntry.Join;
      ZeroAbsent();
      var pt := Walk(virt);
      if pt == None { return None; }
      var e := memory[pt.value][Path(virt)[3]];
      assert View().tables[pt.value][Path(virt)[3]] == e;
      if !Present(e.bits) { return None; }
      r := Some(Join(Frame(e.bits), virt));
    }

    /** `get_page_flags`. */
    method GetPageFlags(virt: nat) returns (r: Option<bv64>)
      requires Valid()
      ensures r == PageFlags(View(), virt)
    {
      hide Sound, PT.Reach, VirtualAddress.Path, PageEntry.Present, PageEntry.Flags;
      ZeroAbsent();
      var pt := Walk(virt);
      if pt == None { return None; }
      var e := memory[pt.value][Path(virt)[3]];
      assert View().tables[pt.value][Path(virt)[3]] == e;
      if !Present(e.bits) { return None; }
      r := Some(Flags(e.bits));
    }

    /** `remap_page`: unmaps and maps again. */
    method RemapPage(virt: nat, phys: bv64, flags: bv64, boxes: Boxes)
      requires Valid() && Fresh(View(), boxes)
      modifies this, memory.Values
      ensures Valid() && View() == Run(old(View()), [Unmap(virt), Map(virt, phys, flags, boxes)])
      ensures fresh(memory.Values - old(memory.Values))
    {
      hide Sound, Step;
      ghost var t := View();
      UnmapKeepsTables(t, virt);
      UnmapPage(virt);
      MapPage(virt, phys, flags, boxes);
      ghost var u, w := Unmap(virt), Map(virt, phys, flags, boxes);
      assert [u, w][..1] == [u] && [u][..0] == [];
      assert Run(t, [u]) == Step(t, u);
    }

    /** `map_range`: the number of pages mapped; it stops the kernel where the rounding or an address overflows. */
    method MapRange(virt: nat, phys: bv64, size: nat, flags: bv64, boxes: nat -> Boxes) returns (done: nat, ok: bool)
      requires Valid()
      requires Permitted(View(), MapOps(virt, phys, flags, boxes, RoundsDone(virt, phys as nat, size)))
      modifies this, memory.Values
      ensures Valid() && done == RoundsDone(virt, phys as nat, size)
          && (ok <==> size + 4095 < U64 && done == PageCount(size))
      ensures View() == Run(old(View()), MapOps(virt, phys, flags, boxes, done))
      ensures fresh(memory.Values - old(memory.Values))
    {
      hide Sound, Fresh, Run, Permitted, VirtualAddress.At, PhysAt, Step, PagesFrom;
      ghost var t := View();
      RunEmpty(t);
      done, ok := 0, false;
      if size + 4095 >= U64 { return; }
      var pages, frame := PageCount(size), phys as nat;
      while done < pages
        invariant Valid() && done <= RoundsDone(virt, frame, size)
        invariant View() == Run(t, MapOps(virt, phys, flags, boxes, done))
        invariant fresh(memory.Values - old(memory.Values))
      {
        PagesFromIff(virt, done);
        PagesFromIff(frame, done);
        if At(virt, done) >= U64 || At(frame, done) >= U64 { return; }
        RoundPermitted(t, virt, phys, flags, boxes, RoundsDone(virt, frame, size), done);
        RunSnoc(t, MapOps(virt, phys, flags, boxes, done), Map(At(virt, done), PhysAt(phys, done), flags, boxes(done)));
        MapPage(At(virt, done), PhysAt(phys, done), flags, boxes(done));
        done := done + 1;
      }
      ok := true;
    }

    /** `unmap_range`, which stops in the same way. */
    method UnmapRange(virt: nat, size: nat) returns (done: nat, ok: bool)
      requires Valid()
      modifies memory.Values
      ensures Valid() && done == RoundsDone(virt, 0, size) && (ok <==> size + 4095 < U64 && done == PageCount(size))
      ensures View() == Run(old(View()), UnmapOps(virt, done))
    {
      hide Sound, Run, VirtualAddress.At, Step, PagesFrom;
      ghost var t := View();
      RunEmpty(t);
      done, ok := 0, false;
      if size + 4095 >= U64 { return; }
      ZeroFits(size);
      var pages := PageCount(size);
      while done < pages
        invariant Valid() && done <= RoundsDone(virt, 0, size)
        invariant View() == Run(t, UnmapOps(virt, done))
      {
        PagesFromIff(virt, done);
        if At(virt, done) >= U64 { return; }
        RunSnoc(t, UnmapOps(virt, done), Unmap(At(virt, done)));
        UnmapPage(At(virt, done));
        done := done + 1;
      }
      ok := true;
    }
  }

  /** A range that starts at address 0 never overflows. */
  lemma ZeroFits(size: nat)
    requires size + 4095 < U64
    ensures PageCount(size) <= PagesFrom(0)
  {
  }
}
