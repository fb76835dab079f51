/** `VirtualMemoryManager` as an object whose tables, page count and frame supply are updated by its methods. */
module VirtualManager {
  import opened Options
  import opened VirtualAddress
  import opened VirtualMemory
  import opened VirtualRanges
  import PT = PageTree

  /** `translate` on a walk of the tree: every level used, then a used leaf. */
  lemma TranslateWalk(s: Vmm, virt: nat)
    requires Inv(s)
    ensures match PT.Reach(ENTRY, s.tree, Path(virt)[..3])
      case None => Translate(s, virt) == None
      case Some(a) => Slot(s.tree, a, Path(virt)[3]) && Translate(s, virt) == Next(s.tree.tables[a][Path(virt)[3]])
  {
    hide VirtualAddress.Path, PT.Reach;
    PT.ReachThree(ENTRY, s.tree, Path(virt));
    if PT.Reach(ENTRY, s.tree, Path(virt)[..3]).Some? {
      LengthFact(s, PT.Reach(ENTRY, s.tree, Path(virt)[..3]).value);
    }
  }

  class Manager {
    const root: nat
    var tables: map<nat, seq<PageEntry>>
    var pageCount: int
    var supply: seq<Option<nat>>
    ghost var owner: map<nat, seq<nat>>
    ghost var overwrites: nat

    ghost function State(): Vmm
      reads this
    {
      Vmm(PT.Tree(root, tables, owner), pageCount, supply, overwrites)
    }

    ghost predicate Valid()
      reads this
    {
      Inv(State())
    }

    constructor (pml4: nat, answers: seq<Option<nat>>)
      requires FreshSupply({pml4}, answers)
      ensures Valid() && State() == New(pml4, answers)
    {
      root, tables := pml4, map[pml4 := seq(PT.FANOUT, _ => Unused)];
      pageCount, supply, overwrites := 0, answers, 0;
      owner := map[pml4 := []];
      new;
      assert tables[pml4] == PT.Blank(ENTRY);
      NewInv(pml4, answers);
    }

    /** `alloc_pages(1)`. */
    method AllocPage() returns (frame: Option<nat>)
      modifies this`supply
      ensures (frame, State()) == Take(old(State()))
    {
      if supply == [] { return None; }
      frame := supply[0];
      supply := supply[1..];
    }

    /** One level of the descent: follows entry `i` of table `a`, allocating the table below if the entry is unused. */
    method EnterTable(a: nat, i: nat) returns (c: Option<nat>)
      requires Slot(State().tree, a, i)
      modifies this
      ensures Spot(State(), c) == Enter(Spot(old(State()), Some(a)), i)
    {
      if tables[a][i].Used? {
        return Some(tables[a][i].addr);
      }
      c := AllocPage();
      if c == None { return; }
      owner := owner[c.value := owner[a] + [i]];
      tables := tables[a := tables[a][i := Used(c.value, 3)]][c.value := seq(PT.FANOUT, _ => Unused)];
      assert tables[c.value] == PT.Blank(ENTRY);
      pageCount := pageCount + 1;
    }

    /** `map_page`. */
    method MapPage(virt: nat, phys: nat, flags: nat) returns (r: Result<()>)
      requires Valid()
      modifies this
      ensures Valid() && (State(), r.Ok?) == VirtualMemory.MapPage(old(State()), virt, phys, flags)
      ensures r.Err? ==> r.error == OutOfMemory
    {
      hide Inv, Enter, Entry, PT.SameLeaves, VirtualAddress.Path, VirtualAddress.Page;
      ghost var s := State();
      MapPageKeeps(s, virt, phys, flags);
      DescendKeeps(s, virt);
      RootFacts(s);
      LengthFact(s, root);
      var p := Path(virt);
      ghost var start := Spot(s, Some(root));
      EnterLive(start, 0, p[0]);
      var pdpt := EnterTable(root, p[0]);
      if pdpt == None {
        StuckDescent(State(), p);
        return Err(OutOfMemory);
      }
      ghost var one := Spot(State(), pdpt);
      EnterLive(one, 1, p[1]);
      var pd := EnterTable(pdpt.value, p[1]);
      if pd == None {
        StuckDescent(State(), p);
        return Err(OutOfMemory);
      }
      ghost var two := Spot(State(), pd);
      EnterLive(two, 2, p[2]);
      var pt := EnterTable(pd.value, p[2]);
      if pt == None { return Err(OutOfMemory); }
      assert Spot(State(), pt) == Descend(s, virt);
      if tables[pt.value][p[3]].Used? { overwrites := overwrites + 1; }
      tables := tables[pt.value := tables[pt.value][p[3] := Used(phys, flags)]];
      pageCount := pageCount + 1;
      r := Ok(());
    }

    /** The read-only walk shared by `unmap_page` and `translate`. */
    method Walk(virt: nat) returns (pt: Option<nat>)
      requires Valid()
      ensures pt == PT.Reach(ENTRY, State().tree, Path(virt)[..3])
      ensures pt.Some? ==> Slot(State().tree, pt.value, Path(virt)[3])
    {
      hide Inv, PT.Reach, VirtualAddress.Path;
      var p := Path(virt);
      Levels(State(), p);
      TranslateWalk(State(), virt);
      if tables[root][p[0]].Unused? { return None; }
      var pdpt := tables[root][p[0]].addr;
      if tables[pdpt][p[1]].Unused? { return None; }
      var pd := tables[pdpt][p[1]].addr;
      if tables[pd][p[2]].Unused? { return None; }
      pt := Some(tables[pd][p[2]].addr);
    }

    /** `unmap_page`. */
    method UnmapPage(virt: nat) returns (r: Result<()>)
      requires Valid()
      modifies this
      ensures Valid() && (State(), r.Ok?) == VirtualMemory.UnmapPage(old(State()), virt)
      ensures r.Err? ==> r.error == InvalidAddress
    {
      hide Inv, Entry, PT.Reach, VirtualAddress.Path, VirtualAddress.Page;
      UnmapPageKeeps(State(), virt);
      var pt := Walk(virt);
      if pt == None { return Err(InvalidAddress); }
      var i := Path(virt)[3];
      if tables[pt.value][i].Used? {
        tables := tables[pt.value := tables[pt.value][i := Unused]];
        pageCount := pageCount - 1;
      }
      r := Ok(());
    }

    /** `translate`. */
    method TranslateAddress(virt: nat) returns (r: Option<nat>)
      requires Valid()
      ensures r == Translate(State(), virt)
    {
      hide Inv, PT.Reach, VirtualAddress.Path;
      TranslateWalk(State(), virt);
      var pt := Walk(virt);
      if pt == None { return None; }
      var e := tables[pt.value][Path(virt)[3]];
      r := if e.Unused? then None else Some(e.addr);
    }

    /** `find_free_virtual_range`. */
    method FindFreeVirtualRange(count: nat) returns (r: Result<nat>)
      requires Valid()
      ensures r == FindFree(State(), count)
    {
      hide Inv, Translate;
      var base := USER_SPACE_BASE;
      while true
        invariant FindFree(State(), count) == FindFrom(State(), base, count)
        decreases USER_SPACE_END - base
      {
        if base >= USER_SPACE_END { return Err(OutOfMemory); }
        var found, start := true, base;
        var i := 0;
        while i < count
          invariant 0 <= i <= count && found && base == start
          invariant forall j: nat :: j < i ==> Translate(State(), At(start, j)) == None
        {
          var frame := TranslateAddress(At(base, i));
          if frame.Some? {
            found := false;
            base := (base + 0x1000) / 0x1000 * 0x1000;
            break;
          }
          i := i + 1;
        }
        if found { return Ok(base); }
        assert !FreeAt(State(), start, count);
      }
    }

    /** The mapping loops of `mmap` and `allocate_user_pages`. */
    method MapPages(base: nat, phys: Option<nat>, flags: nat, n: nat) returns (ok: bool)
      requires Valid()
      modifies this
      ensures Valid() && (State(), ok) == MapRun(old(State()), base, phys, flags, 0, n)
    {
      hide Inv, Entry, VirtualMemory.MapPage;
      ghost var s := State();
      MapRunKeeps(s, base, phys, flags, 0, n);
      var i := 0;
      while i < n
        invariant 0 <= i <= n && Valid()
        invariant MapRun(s, base, phys, flags, 0, n) == MapRun(State(), base, phys, flags, i, n)
      {
        var frame := phys;
        TakeState(State());
        ghost var t := State();
        if phys.Some? { frame := Some(At(phys.value, i)); } else { frame := AllocPage(); }
        assert (frame, State()) == FrameFor(t, phys, i);
        if frame == None { return false; }
        var r := MapPage(At(base, i), frame.value, flags);
        if r.Err? { return false; }
        i := i + 1;
      }
      ok := true;
    }

    /** `mmap`. */
    method MmapPages(addr: nat, length: nat, prot: nat) returns (r: Result<nat>)
      requires Valid()
      modifies this
      ensures Valid() && (State(), r) == Mmap(old(State()), addr, length, prot)
    {
      hide Inv, MapRun, FindFrom;
      var n := PageCount(length);
      if addr != 0 && !ValidUserRange(addr, length) { return Err(InvalidAddress); }
      var base := Ok(addr);
      if addr == 0 {
        base := FindFreeVirtualRange(n);
        if base.Err? { return base; }
      }
      var ok := MapPages(base.value, None, prot, n);
      r := if ok then base else Err(OutOfMemory);
    }

    /** `munmap`. */
    method MunmapPages(addr: nat, length: nat) returns (r: Result<()>)
      requires Valid()
      modifies this
      ensures Valid() && (State(), r) == Munmap(old(State()), addr, length)
    {
      hide Inv, Entry, VirtualMemory.UnmapPage;
      ghost var s := State();
      var n, i := PageCount(length), 0;
      while i < n
        invariant 0 <= i <= n && Valid()
        invariant UnmapRun(s, addr, 0, n) == UnmapRun(State(), addr, i, n)
      {
        var q := UnmapPage(At(addr, i));
        if q.Err? { return q; }
        i := i + 1;
      }
      r := Ok(());
    }

    /** `allocate_user_pages`; `frames` is the answer of `alloc_pages(count)`. */
    method AllocateUser(count: nat, flags: nat, frames: Option<nat>) returns (r: Result<nat>)
      requires Valid()
      modifies this
      ensures Valid() && (State(), r) == AllocateUserPages(old(State()), count, flags, frames)
    {
      hide Inv, MapRun, FindFrom;
      if frames == None { return Err(OutOfMemory); }
      var base := FindFreeVirtualRange(count);
      if base.Err? { return base; }
      var ok := MapPages(base.value, frames, flags, count);
      r := if ok then base else Err(OutOfMemory);
    }
  }

  /** Once memory has run out, the remaining levels change nothing. */
  lemma StuckDescent(s: Vmm, p: seq<nat>)
    requires |p| == 4
    ensures Enter(Spot(s, None), p[1]) == Spot(s, None)
    ensures Enter(Spot(s, None), p[2]) == Spot(s, None)
  {
  }
}
