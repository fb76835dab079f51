/**
  What the entries of the manager of src/memory/virtual.rs hold: the upper ones in every run, the leaves after one call.
 */
module VirtualEntries {
  import opened Options
  import opened VirtualAddress
  import opened VirtualMemory
  import opened VirtualRanges
  import PT = PageTree

  /** An upper entry is unused, or present and writable. */
  predicate UpperEntry(e: PageEntry) {
    e.Used? ==> e.flags == 3
  }

  ghost predicate UpperThree(s: Vmm) {
    PT.Shape(s.tree) && PT.Upper(s.tree, UpperEntry)
  }

  lemma EnterUpper(s: Spot, i: nat)
    requires Inv(s.vmm) && UpperThree(s.vmm) && i < PT.FANOUT
    requires s.table.Some? ==> s.table.value in s.vmm.tree.tables && |s.vmm.tree.owner[s.table.value]| < 3
    ensures UpperThree(Enter(s, i).vmm)
  {
    hide PT.Reach, PT.Upper, UsedSlots;
    if s.table.Some? {
      var t, a := s.vmm.tree, s.table.value;
      TakeKeeps(s.vmm);
      if Slot(t, a, i) && Next(t.tables[a][i]) == None && Take(s.vmm).0.Some? {
        PT.EnsureUpper(ENTRY, t, a, i, Take(s.vmm).0.value, UpperEntry);
      }
    }
  }

  lemma DescendUpper(s: Vmm, virt: nat)
    requires Inv(s) && UpperThree(s)
    ensures UpperThree(Descend(s, virt).vmm)
  {
    hide Inv, Enter, UpperThree, VirtualAddress.Path;
    var p := Path(virt);
    var a := Spot(s, Some(s.tree.root));
    var b := Enter(a, p[0]);
    var c := Enter(b, p[1]);
    RootFacts(s);
    EnterUpper(a, p[0]);
    EnterKeeps(a, p[0]);
    EnterUpper(b, p[1]);
    EnterKeeps(b, p[1]);
    EnterUpper(c, p[2]);
  }

  lemma MapUpper(s: Vmm, virt: nat, phys: nat, flags: nat)
    requires Inv(s) && UpperThree(s)
    ensures UpperThree(MapPage(s, virt, phys, flags).0)
  {
    hide Descend, PT.Reach, PT.Upper, UsedSlots, FreshSupply, VirtualAddress.Path;
    DescendUpper(s, virt);
    DescendKeeps(s, virt);
    var d := Descend(s, virt);
    if d.table.Some? {
      PT.WriteUpper(ENTRY, d.vmm.tree, d.table.value, Path(virt)[3], Used(phys, flags), UpperEntry);
    }
  }

  lemma UnmapUpper(s: Vmm, virt: nat)
    requires Inv(s) && UpperThree(s)
    ensures UpperThree(UnmapPage(s, virt).0)
  {
    hide PT.Reach, PT.Upper, UsedSlots, FreshSupply, VirtualAddress.Path;
    var r := PT.Reach(ENTRY, s.tree, Path(virt)[..3]);
    if r.Some? {
      PT.ReachedIsOwned(ENTRY, s.tree, Path(virt)[..3]);
      PT.WriteUpper(ENTRY, s.tree, r.value, Path(virt)[3], Unused, UpperEntry);
    }
  }

  lemma {:induction false} MapRunUpper(s: Vmm, base: nat, phys: Option<nat>, flags: nat, i: nat, n: nat)
    requires Inv(s) && UpperThree(s)
    ensures UpperThree(MapRun(s, base, phys, flags, i, n).0)
    decreases n - i
  {
    hide Inv, UpperThree, MapPage, Take;
    if i < n {
      MapRoundKeeps(s, base, phys, flags, i);
      TakeState(s);
      TakeUpper(s);
      var (f, t) := FrameFor(s, phys, i);
      if f.Some? { MapUpper(t, At(base, i), f.value, flags); }
      if MapRound(s, base, phys, flags, i).1 {
        MapRunUpper(MapRound(s, base, phys, flags, i).0, base, phys, flags, i + 1, n);
      }
    }
  }

  lemma TakeUpper(s: Vmm)
    requires UpperThree(s)
    ensures UpperThree(Take(s).1)
  {
  }

  lemma {:induction false} UnmapRunUpper(s: Vmm, base: nat, i: nat, n: nat)
    requires Inv(s) && UpperThree(s)
    ensures UpperThree(UnmapRun(s, base, i, n).0)
    decreases n - i
  {
    hide Inv, UpperThree, UnmapPage;
    if i < n {
      UnmapUpper(s, At(base, i));
      UnmapPageKeeps(s, At(base, i));
      if UnmapPage(s, At(base, i)).1 {
        UnmapRunUpper(UnmapPage(s, At(base, i)).0, base, i + 1, n);
      }
    }
  }

  lemma StepUpper(s: Vmm, op: Op)
    requires Inv(s) && UpperThree(s)
    ensures UpperThree(Step(s, op))
  {
    hide Inv, UpperThree, MapPage, UnmapPage, MapRun, UnmapRun, FindFrom;
    match op
    case Map(virt, phys, flags) => MapUpper(s, virt, phys, flags);
    case Unmap(virt) => UnmapUpper(s, virt);
    case MmapAt(addr, length, prot) =>
      var base := if addr != 0 then Ok(addr) else FindFree(s, PageCount(length));
      if base.Ok? { MapRunUpper(s, base.value, None, prot, 0, PageCount(length)); }
    case MunmapAt(addr, length) => UnmapRunUpper(s, addr, 0, PageCount(length));
    case AllocateUser(count, flags, frames) =>
      if FindFree(s, count).Ok? { MapRunUpper(s, FindFree(s, count).value, frames, flags, 0, count); }
  }

  lemma {:induction false} RunUpper(s: Vmm, ops: seq<Op>)
    requires Inv(s) && UpperThree(s)
    ensures UpperThree(Run(s, ops)) && Inv(Run(s, ops))
    decreases |ops|
  {
    hide Inv, UpperThree, Step;
    if ops != [] {
      StepInv(s, ops[0]);
      StepUpper(s, ops[0]);
      RunUpper(Step(s, ops[0]), ops[1..]);
    }
  }

  /** In every run each used entry of an upper table leads to a table of the tree and is present and writable. */
  lemma UpperEntries(root: nat, supply: seq<Option<nat>>, ops: seq<Op>, a: nat, i: nat)
    requires FreshSupply({root}, supply)
    requires var t := Run(New(root, supply), ops).tree; Slot(t, a, i) && |t.owner[a]| < 3 && t.tables[a][i].Used?
    ensures var t := Run(New(root, supply), ops).tree;
      t.tables[a][i].flags == 3 && t.tables[a][i].addr in t.tables
  {
    hide Run, FreshSupply, PT.Reach, UsedSlots;
    NewInv(root, supply);
    NewUpper(root, supply);
    RunUpper(New(root, supply), ops);
    var s := Run(New(root, supply), ops);
    assert UpperEntry(s.tree.tables[a][i]);
    PT.TableFacts(ENTRY, s.tree, a);
    ChildFacts(s, a, i);
  }

  lemma NewUpper(root: nat, supply: seq<Option<nat>>)
    ensures UpperThree(New(root, supply))
  {
    PT.StartSound(ENTRY, root);
  }

  /** After a successful `map_page` the addresses of the page translate to the frame given, and no other changes. */
  lemma MapTranslates(s: Vmm, virt: nat, phys: nat, flags: nat)
    requires Inv(s)
    ensures var (u, ok) := MapPage(s, virt, phys, flags);
      forall v: nat :: Translate(u, v) == if ok && Page(v) == Page(virt) then Some(phys) else Translate(s, v)
  {
    hide Inv, Entry, MapPage, VirtualAddress.Page;
    MapPageKeeps(s, virt, phys, flags);
  }

  /**
    After `unmap_page` the addresses of the page do not translate, and no other changes; it is refused for want of a
    table only.
   */
  lemma UnmapTranslates(s: Vmm, virt: nat)
    requires Inv(s)
    ensures var (u, ok) := UnmapPage(s, virt);
      && (forall v: nat :: Translate(u, v) == if Page(v) == Page(virt) then None else Translate(s, v))
      && (ok <==> PT.Reach(ENTRY, s.tree, Path(virt)[..3]).Some?)
  {
    hide Inv, Entry, VirtualAddress.Page, VirtualAddress.Path, PT.Reach;
    UnmapPageKeeps(s, virt);
    UnmapOk(s, virt);
  }
}
