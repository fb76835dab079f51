/** Which frames `mmap` of src/memory/virtual.rs puts behind its pages, and what a failed call leaves behind. */
module VirtualFrames {
  import opened Options
  import opened VirtualAddress
  import opened VirtualMemory
  import opened VirtualRanges
  import PT = PageTree

  ghost predicate InSupply(supply: seq<Option<nat>>, a: nat) {
    exists k :: 0 <= k < |supply| && supply[k] == Some(a)
  }

  /** A frame that is a table or may still be allocated. */
  ghost predicate Pool(s: Vmm, a: nat) {
    a in s.tree.tables || InSupply(s.supply, a)
  }

  /** No frame enters the pool. */
  ghost predicate Shrinks(s: Vmm, u: Vmm) {
    forall a: nat :: Pool(u, a) ==> Pool(s, a)
  }

  /** Different pages have different frames, and no page has a frame of the pool. */
  ghost predicate Exclusive(s: Vmm) {
    && (forall v: nat, w: nat :: Entry(s, v).Used? && Entry(s, w).Used? && Page(v) != Page(w) ==>
          Entry(s, v).addr != Entry(s, w).addr)
    && (forall v: nat :: Entry(s, v).Used? ==> !Pool(s, Entry(s, v).addr))
  }

  // ---------- The pool

  lemma TakePool(s: Vmm)
    requires Inv(s)
    ensures var (f, t) := Take(s);
      Shrinks(s, t) && (f.Some? ==> Pool(s, f.value) && !Pool(t, f.value))
  {
    hide PT.Sound, UsedSlots;
    var (f, t) := Take(s);
    forall a: nat | Pool(t, a) ensures Pool(s, a) {
      if a !in t.tree.tables {
        var k :| 0 <= k < |t.supply| && t.supply[k] == Some(a);
        assert s.supply != [] ==> s.supply[k + 1] == Some(a);
      }
    }
    if f.Some? {
      assert s.supply[0] == f;
      forall k | 0 <= k < |t.supply| ensures t.supply[k] != f {
        assert s.supply[k + 1] == t.supply[k];
      }
    }
  }

  lemma EnterPool(s: Spot, i: nat)
    requires Inv(s.vmm)
    ensures Shrinks(s.vmm, Enter(s, i).vmm)
  {
    hide Inv, Pool;
    if s.table.Some? && Slot(s.vmm.tree, s.table.value, i) && Next(s.vmm.tree.tables[s.table.value][i]) == None {
      TakePool(s.vmm);
      var (f, t) := Take(s.vmm);
      if f.Some? {
        GrowPool(s.vmm, Enter(s, i).vmm, s.table.value, i, f.value);
      }
    }
  }

  lemma GrowPool(s: Vmm, u: Vmm, a: nat, i: nat, b: nat)
    requires Slot(s.tree, a, i) && u.supply == Take(s).1.supply && u.tree == PT.Grow(ENTRY, Take(s).1.tree, a, i, b)
    requires Shrinks(s, Take(s).1) && Pool(s, b)
    ensures Shrinks(s, u)
  {
    forall c: nat | Pool(u, c) ensures Pool(s, c) {
      assert c != b ==> Pool(Take(s).1, c);
    }
  }

  lemma ShrinksChain(s: Vmm, t: Vmm, u: Vmm)
    requires Shrinks(s, t) && Shrinks(t, u)
    ensures Shrinks(s, u)
  {
    hide Pool;
  }

  lemma DescendPool(s: Vmm, virt: nat)
    requires Inv(s)
    ensures Shrinks(s, Descend(s, virt).vmm)
  {
    hide Inv, Enter, Shrinks, VirtualAddress.Path;
    var p := Path(virt);
    var a := Spot(s, Some(s.tree.root));
    var b := Enter(a, p[0]);
    var c := Enter(b, p[1]);
    RootFacts(s);
    EnterPool(a, p[0]);
    EnterKeeps(a, p[0]);
    EnterPool(b, p[1]);
    EnterKeeps(b, p[1]);
    EnterPool(c, p[2]);
    ShrinksChain(s, b.vmm, c.vmm);
    ShrinksChain(s, c.vmm, Enter(c, p[2]).vmm);
  }

  lemma MapPool(s: Vmm, virt: nat, phys: nat, flags: nat)
    requires Inv(s)
    ensures Shrinks(s, MapPage(s, virt, phys, flags).0)
  {
    hide Inv, Descend, VirtualAddress.Path;
    DescendPool(s, virt);
    var d, u := Descend(s, virt).vmm, MapPage(s, virt, phys, flags).0;
    assert u.supply == d.supply && u.tree.tables.Keys == d.tree.tables.Keys;
    forall a: nat | Pool(u, a) ensures Pool(s, a) {
      assert Pool(d, a);
    }
  }

  lemma UnmapPool(s: Vmm, virt: nat)
    requires Inv(s)
    ensures Shrinks(s, UnmapPage(s, virt).0)
  {
    hide Inv, VirtualAddress.Path, PT.Reach;
    var u := UnmapPage(s, virt).0;
    assert u.supply == s.supply && u.tree.tables.Keys == s.tree.tables.Keys;
    forall a: nat | Pool(u, a) ensures Pool(s, a) {
    }
  }

  // ---------- Every step keeps the frames apart

  lemma MapKeepsExclusive(s: Vmm, t: Vmm, u: Vmm, virt: nat, f: nat, flags: nat, ok: bool)
    requires Exclusive(s) && Shrinks(s, t) && Shrinks(t, u) && Pool(s, f) && !Pool(t, f)
    requires forall v: nat :: Entry(u, v) == if ok && Page(v) == Page(virt) then Used(f, flags) else Entry(s, v)
    ensures Exclusive(u)
  {
    hide Pool, Entry, VirtualAddress.Page;
    ShrinksChain(s, t, u);
  }

  lemma RoundKeepsExclusive(s: Vmm, base: nat, flags: nat, i: nat)
    requires Inv(s) && Exclusive(s)
    ensures Inv(MapRound(s, base, None, flags, i).0) && Exclusive(MapRound(s, base, None, flags, i).0)
  {
    hide Inv, Entry, Exclusive, Shrinks, MapPage, Take, VirtualAddress.At, VirtualAddress.Page;
    MapRoundKeeps(s, base, None, flags, i);
    TakePool(s);
    TakeState(s);
    var (f, t) := Take(s);
    var (u, ok) := MapRound(s, base, None, flags, i);
    if f.Some? {
      MapPool(t, At(base, i), f.value, flags);
      MapKeepsExclusive(s, t, u, At(base, i), f.value, flags, ok);
    } else {
      FewerFrames(s, u);
    }
  }

  lemma FewerFrames(s: Vmm, u: Vmm)
    requires Exclusive(s) && Shrinks(s, u)
    requires forall v: nat :: Entry(u, v) == Entry(s, v) || Entry(u, v) == Unused
    ensures Exclusive(u)
  {
    hide Pool, Entry, VirtualAddress.Page;
  }

  lemma {:induction false} MapRunExclusive(s: Vmm, base: nat, flags: nat, i: nat, n: nat)
    requires Inv(s) && Exclusive(s)
    ensures Exclusive(MapRun(s, base, None, flags, i, n).0)
    decreases n - i
  {
    hide Inv, Exclusive, MapRound;
    if i < n {
      RoundKeepsExclusive(s, base, flags, i);
      if MapRound(s, base, None, flags, i).1 {
        MapRunExclusive(MapRound(s, base, None, flags, i).0, base, flags, i + 1, n);
      }
    }
  }

  lemma UnmapKeepsExclusive(s: Vmm, virt: nat)
    requires Inv(s) && Exclusive(s)
    ensures Inv(UnmapPage(s, virt).0) && Exclusive(UnmapPage(s, virt).0)
  {
    hide Inv, Entry, Exclusive, Shrinks, UnmapPage, VirtualAddress.Page;
    UnmapPageKeeps(s, virt);
    UnmapPool(s, virt);
    FewerFrames(s, UnmapPage(s, virt).0);
  }

  lemma {:induction false} UnmapRunExclusive(s: Vmm, base: nat, i: nat, n: nat)
    requires Inv(s) && Exclusive(s)
    ensures Exclusive(UnmapRun(s, base, i, n).0)
    decreases n - i
  {
    hide Inv, Exclusive, UnmapPage;
    if i < n {
      UnmapKeepsExclusive(s, At(base, i));
      if UnmapPage(s, At(base, i)).1 {
        UnmapRunExclusive(UnmapPage(s, At(base, i)).0, base, i + 1, n);
      }
    }
  }

  predicate Anonymous(op: Op) {
    op.MmapAt? || op.MunmapAt? || op.Unmap?
  }

  lemma StepExclusive(s: Vmm, op: Op)
    requires Inv(s) && Exclusive(s) && Anonymous(op)
    ensures Exclusive(Step(s, op))
  {
    hide Inv, Exclusive, UnmapPage, MapRun, UnmapRun, FindFrom;
    match op
    case Unmap(virt) => UnmapKeepsExclusive(s, virt);
    case MmapAt(addr, length, prot) =>
      var base := if addr != 0 then Ok(addr) else FindFree(s, PageCount(length));
      if base.Ok? { MapRunExclusive(s, base.value, prot, 0, PageCount(length)); }
    case MunmapAt(addr, length) => UnmapRunExclusive(s, addr, 0, PageCount(length));
  }

  lemma {:induction false} RunExclusive(s: Vmm, ops: seq<Op>)
    requires Inv(s) && Exclusive(s) && forall k :: 0 <= k < |ops| ==> Anonymous(ops[k])
    ensures Exclusive(Run(s, ops))
    decreases |ops|
  {
    hide Inv, Exclusive, Step;
    if ops != [] {
      StepInv(s, ops[0]);
      StepExclusive(s, ops[0]);
      RunExclusive(Step(s, ops[0]), ops[1..]);
    }
  }

  /**
    In every run of `mmap`, `munmap` and `unmap_page`, whether or not memory runs out, no two pages share a frame and
    no page shows a frame that holds a table.
   */
  lemma MappedFramesDiffer(root: nat, supply: seq<Option<nat>>, ops: seq<Op>, v: nat, w: nat)
    requires FreshSupply({root}, supply) && forall k :: 0 <= k < |ops| ==> Anonymous(ops[k])
    ensures var s := Run(New(root, supply), ops);
      && (Translate(s, v).Some? ==> Translate(s, v).value !in s.tree.tables)
      && (Translate(s, v).Some? && Page(v) != Page(w) ==> Translate(s, v) != Translate(s, w))
  {
    hide Run, New, FreshSupply, Entry, VirtualAddress.Page;
    NewInv(root, supply);
    var s := New(root, supply);
    forall x: nat ensures !Entry(s, x).Used? {
      assert Translate(s, x) == None;
    }
    RunExclusive(s, ops);
  }

  // ---------- A call that stops midway

  /** How many rounds of a mapping loop succeed. */
  ghost function RoundsMapped(s: Vmm, base: nat, flags: nat, i: nat, n: nat): nat
    decreases n - i
  {
    if i >= n then 0
    else
      var (u, ok) := MapRound(s, base, None, flags, i);
      if ok then 1 + RoundsMapped(u, base, flags, i + 1, n) else 0
  }

  lemma {:induction false} MapRunStops(s: Vmm, base: nat, flags: nat, i: nat, n: nat)
    requires Inv(s)
    ensures var (u, ok) := MapRun(s, base, None, flags, i, n);
      var m := i + RoundsMapped(s, base, flags, i, n);
      && (i <= n ==> m <= n) && (ok <==> m >= n)
      && (forall v: nat :: !Touches(base, i, m, v) ==> Entry(u, v) == Entry(s, v))
      && (forall j: nat :: i <= j < m ==> Entry(u, At(base, j)).Used?)
      && (forall v: nat :: Entry(s, v).Used? ==> Entry(u, v).Used?)
    decreases n - i
  {
    hide Inv, Entry, MapRound, FrameFor, VirtualAddress.At, VirtualAddress.Page, Touches;
    if i < n {
      MapRoundKeeps(s, base, None, flags, i);
      var (u, ok) := MapRound(s, base, None, flags, i);
      if ok {
        MapRunStops(u, base, flags, i + 1, n);
        TouchesFirst(base, i, i + RoundsMapped(s, base, flags, i, n));
        assert Entry(u, At(base, i)).Used?;
      }
    }
  }

  /** A failed `mmap` at address 0 leaves exactly the first pages of the range it found mapped, and fewer than asked. */
  lemma FailedMmapLeaves(s: Vmm, length: nat, prot: nat) returns (m: nat)
    requires Inv(s) && Mmap(s, 0, length, prot).1.Err? && FindFree(s, PageCount(length)).Ok?
    ensures m < PageCount(length)
    ensures var u, base := Mmap(s, 0, length, prot).0, FindFree(s, PageCount(length)).value;
      && (forall v: nat :: !Touches(base, 0, m, v) ==> Entry(u, v) == Entry(s, v))
      && (forall j: nat :: j < m ==> Entry(u, At(base, j)).Used?)
  {
    hide Inv, Entry, MapRun, FindFrom, VirtualAddress.At, Touches, VirtualAddress.PageCount;
    var n, base := PageCount(length), FindFree(s, PageCount(length)).value;
    MapRunStops(s, base, prot, 0, n);
    m := RoundsMapped(s, base, prot, 0, n);
  }
}
