/**
  The per-process virtual memory manager of src/memory/virtual.rs as a value.
  Its entries come from a `PageEntry` type that is not part of the repository; they are taken to be
  unused, or used with an address and flags. New table frames are taken to arrive zeroed.
 */
module VirtualMemory {
  import opened Options
  import opened VirtualAddress
  import PT = PageTree

  const USER_SPACE_BASE: nat := 0x10_0000
  const USER_SPACE_END: nat := 0x8000_0000_0000

  datatype PageEntry = Unused | Used(addr: nat, flags: nat)
  datatype VmmError = OutOfMemory | InvalidAddress
  datatype Result<+T> = Ok(value: T) | Err(error: VmmError)

  type Space = PT.Tree<nat, PageEntry>

  function Next(e: PageEntry): Option<nat> {
    if e.Used? then Some(e.addr) else None
  }

  function Link(e: PageEntry, b: nat): PageEntry {
    Used(b, 3)
  }

  const ENTRY: PT.Format<nat, PageEntry> := PT.Format(Next, Link, Unused)

  /**
    `supply` holds the answers that `alloc_pages(1)` will give, in order; it fails once they run out.
    `overwrites` counts the `map_page` calls that replaced a used leaf entry; the manager does not store it.
   */
  datatype Vmm = Vmm(tree: Space, pageCount: int, supply: seq<Option<nat>>, overwrites: nat)

  /** All used entries of all levels. */
  ghost function UsedSlots(t: Space): set<(nat, nat)> {
    set a, i | a in t.tables && 0 <= i < |t.tables[a]| && t.tables[a][i].Used? :: (a, i)
  }

  /** The answers are distinct frames, none of which is already a table. */
  ghost predicate FreshSupply(tables: set<nat>, supply: seq<Option<nat>>) {
    && (forall k :: 0 <= k < |supply| && supply[k].Some? ==> supply[k].value !in tables)
    && (forall j, k :: 0 <= j < k < |supply| && supply[j].Some? ==> supply[j] != supply[k])
  }

  /** The manager's invariant: an alias-free tree, a fresh supply, and the page count accounted for. */
  ghost predicate Inv(s: Vmm) {
    && PT.Sound(ENTRY, s.tree)
    && FreshSupply(s.tree.tables.Keys, s.supply)
    && s.pageCount == |UsedSlots(s.tree)| + s.overwrites
  }

  ghost function Entry(s: Vmm, virt: nat): PageEntry {
    PT.Leaf(ENTRY, s.tree, Path(virt))
  }

  /** `translate`: the stored address, without the offset of `virt`. */
  ghost function Translate(s: Vmm, virt: nat): Option<nat> {
    Next(Entry(s, virt))
  }

  /** `alloc_pages(1)`. */
  function Take(s: Vmm): (Option<nat>, Vmm) {
    if s.supply == [] then (None, s) else (s.supply[0], s.(supply := s.supply[1..]))
  }

  predicate Slot(t: Space, a: nat, i: nat) {
    a in t.tables && a in t.owner && i < |t.tables[a]|
  }

  /** A manager state and the table a descent has arrived at, if memory did not run out. */
  datatype Spot = Spot(vmm: Vmm, table: Option<nat>)

  /** One level of `map_page`'s descent. */
  ghost function Enter(s: Spot, i: nat): Spot {
    if s.table == None || !Slot(s.vmm.tree, s.table.value, i) then Spot(s.vmm, None)
    else
      var a := s.table.value;
      var child := Next(s.vmm.tree.tables[a][i]);
      if child.Some? then Spot(s.vmm, child)
      else
        var (frame, rest) := Take(s.vmm);
        if frame == None then Spot(rest, None)
        else Spot(rest.(tree := PT.Grow(ENTRY, rest.tree, a, i, frame.value), pageCount := rest.pageCount + 1), frame)
  }

  ghost function Descend(s: Vmm, virt: nat): Spot {
    Enter(Enter(Enter(Spot(s, Some(s.tree.root)), Path(virt)[0]), Path(virt)[1]), Path(virt)[2])
  }

  /** Writes a used leaf entry and counts it. */
  ghost function SetLeaf(s: Vmm, a: nat, i: nat, e: PageEntry): Vmm
    requires Slot(s.tree, a, i)
  {
    s.(tree := PT.Write(s.tree, a, i, e),
       pageCount := s.pageCount + 1,
       overwrites := s.overwrites + (if s.tree.tables[a][i].Used? then 1 else 0))
  }

  /** `map_page`: the state it leaves, and whether it succeeded. */
  ghost function MapPage(s: Vmm, virt: nat, phys: nat, flags: nat): (Vmm, bool) {
    var d := Descend(s, virt);
    if d.table == None || !Slot(d.vmm.tree, d.table.value, Path(virt)[3]) then (d.vmm, false)
    else (SetLeaf(d.vmm, d.table.value, Path(virt)[3], Used(phys, flags)), true)
  }

  /** `unmap_page`. */
  ghost function UnmapPage(s: Vmm, virt: nat): (Vmm, bool) {
    match PT.Reach(ENTRY, s.tree, Path(virt)[..3])
    case None => (s, false)
    case Some(a) =>
      var i := Path(virt)[3];
      if Slot(s.tree, a, i) && s.tree.tables[a][i].Used?
      then (s.(tree := PT.Write(s.tree, a, i, Unused), pageCount := s.pageCount - 1), true)
      else (s, true)
  }

  // ---------- Counting used entries

  lemma InUsed(t: Space, z: (nat, nat))
    ensures z in UsedSlots(t) <==> z.0 in t.tables && z.1 < |t.tables[z.0]| && t.tables[z.0][z.1].Used?
  {
  }

  lemma GrowUsed(t: Space, a: nat, i: nat, b: nat)
    requires PT.Growable(ENTRY, t, a, i, b)
    ensures |UsedSlots(PT.Grow(ENTRY, t, a, i, b))| == |UsedSlots(t)| + 1
  {
    hide PT.Sound, PT.Reach, UsedSlots;
    PT.TableFacts(ENTRY, t, a);
    var u := PT.Grow(ENTRY, t, a, i, b);
    forall z: (nat, nat) ensures z in UsedSlots(u) <==> z in UsedSlots(t) || z == (a, i) {
      InUsed(t, z);
      InUsed(u, z);
    }
    InUsed(t, (a, i));
    assert UsedSlots(u) == UsedSlots(t) + {(a, i)};
  }

  lemma WriteUsed(t: Space, a: nat, i: nat, e: PageEntry)
    requires Slot(t, a, i)
    ensures |UsedSlots(PT.Write(t, a, i, e))| + (if t.tables[a][i].Used? then 1 else 0)
         == |UsedSlots(t)| + (if e.Used? then 1 else 0)
  {
    hide UsedSlots;
    var u := PT.Write(t, a, i, e);
    forall z: (nat, nat) ensures z in UsedSlots(u) <==> if z == (a, i) then e.Used? else z in UsedSlots(t) {
      InUsed(t, z);
      InUsed(u, z);
    }
    InUsed(t, (a, i));
    if e.Used? {
      assert UsedSlots(u) == UsedSlots(t) + {(a, i)};
    } else {
      assert UsedSlots(u) == UsedSlots(t) - {(a, i)};
    }
  }

  // ---------- One level of the descent

  lemma TakeKeeps(s: Vmm)
    requires Inv(s)
    ensures Inv(Take(s).1) && Take(s).1.tree == s.tree && Take(s).1.overwrites == s.overwrites
    ensures Take(s).0.Some? ==>
      Take(s).0.value !in s.tree.tables && FreshSupply(s.tree.tables.Keys + {Take(s).0.value}, Take(s).1.supply)
  {
    hide PT.Sound, UsedSlots;
  }

  /** Hanging a fresh table into the tree and counting it. */
  lemma HangKeeps(s: Vmm, u: Vmm, a: nat, i: nat, b: nat)
    requires Inv(s) && a in s.tree.tables && a in s.tree.owner && i < |s.tree.tables[a]|
    requires |s.tree.owner[a]| < 3 && i < PT.FANOUT && Next(s.tree.tables[a][i]) == None && b !in s.tree.tables
    requires FreshSupply(s.tree.tables.Keys + {b}, u.supply) && u.overwrites == s.overwrites
    requires u.tree == PT.Grow(ENTRY, s.tree, a, i, b) && u.pageCount == s.pageCount + 1
    ensures Inv(u) && u.tree.root == s.tree.root && PT.SameLeaves(ENTRY, s.tree, u.tree)
    ensures b in u.tree.tables && b in u.tree.owner && u.tree.owner[b] == s.tree.owner[a] + [i]
  {
    hide PT.Sound, PT.SameLeaves, UsedSlots, FreshSupply;
    PT.EnsureKeeps(ENTRY, s.tree, a, i, b);
    GrowUsed(s.tree, a, i, b);
    assert u.tree.tables.Keys == s.tree.tables.Keys + {b};
  }

  /** A descent keeps the invariant and every leaf, whether or not memory runs out. */
  lemma EnterKeeps(s: Spot, i: nat)
    requires Inv(s.vmm) && i < PT.FANOUT
    requires s.table.Some? ==> s.table.value in s.vmm.tree.tables && |s.vmm.tree.owner[s.table.value]| < 3
    ensures var r := Enter(s, i);
      && Inv(r.vmm) && r.vmm.tree.root == s.vmm.tree.root && PT.SameLeaves(ENTRY, s.vmm.tree, r.vmm.tree)
      && r.vmm.overwrites == s.vmm.overwrites
      && (r.table.Some? ==>
            && s.table.Some? && r.table.value in r.vmm.tree.tables && r.table.value in r.vmm.tree.owner
            && r.vmm.tree.owner[r.table.value] == s.vmm.tree.owner[s.table.value] + [i])
  {
    hide Inv, PT.SameLeaves, PT.Grow, FreshSupply;
    NoChange(s.vmm);
    if s.table.Some? {
      var t, a := s.vmm.tree, s.table.value;
      TakeKeeps(s.vmm);
      ChildFacts(s.vmm, a, i);
      if Next(t.tables[a][i]) == None && Take(s.vmm).0.Some? {
        HangKeeps(s.vmm, Enter(s, i).vmm, a, i, Take(s.vmm).0.value);
      }
    }
  }

  lemma NoChange(s: Vmm)
    ensures PT.SameLeaves(ENTRY, s.tree, s.tree)
  {
  }

  /** An entry that is used in an upper table leads to the table for the longer path. */
  lemma ChildFacts(s: Vmm, a: nat, i: nat)
    requires Inv(s) && a in s.tree.tables && |s.tree.owner[a]| < 3 && i < PT.FANOUT
    ensures a in s.tree.owner && |s.tree.tables[a]| == PT.FANOUT
    ensures var child := Next(s.tree.tables[a][i]);
      child.Some? ==>
        && child.value in s.tree.tables && child.value in s.tree.owner
        && s.tree.owner[child.value] == s.tree.owner[a] + [i]
  {
    hide PT.Reach, UsedSlots, FreshSupply;
    PT.TableFacts(ENTRY, s.tree, a);
  }

  lemma DescendKeeps(s: Vmm, virt: nat)
    requires Inv(s)
    ensures var r := Descend(s, virt);
      && Inv(r.vmm) && r.vmm.tree.root == s.tree.root && PT.SameLeaves(ENTRY, s.tree, r.vmm.tree)
      && r.vmm.overwrites == s.overwrites
      && (r.table.Some? ==>
            && r.table.value in r.vmm.tree.tables && r.table.value in r.vmm.tree.owner
            && r.vmm.tree.owner[r.table.value] == Path(virt)[..3]
            && |r.vmm.tree.tables[r.table.value]| == PT.FANOUT)
  {
    hide Inv, Enter, PT.SameLeaves, VirtualAddress.Path;
    var p := Path(virt);
    RootFacts(s);
    var a := Spot(s, Some(s.tree.root));
    EnterKeeps(a, p[0]);
    var b := Enter(a, p[0]);
    EnterKeeps(b, p[1]);
    var c := Enter(b, p[1]);
    EnterKeeps(c, p[2]);
    var d := Enter(c, p[2]);
    PT.SameLeavesChain(ENTRY, s.tree, b.vmm.tree, c.vmm.tree, d.vmm.tree);
    assert p[..3] == [p[0], p[1], p[2]];
    if d.table.Some? {
      LengthFact(d.vmm, d.table.value);
    }
  }

  lemma RootFacts(s: Vmm)
    requires Inv(s)
    ensures s.tree.root in s.tree.tables && s.tree.root in s.tree.owner && s.tree.owner[s.tree.root] == []
  {
    PT.TableFacts(ENTRY, s.tree, s.tree.root);
  }

  lemma LengthFact(s: Vmm, a: nat)
    requires Inv(s) && a in s.tree.tables
    ensures a in s.tree.owner && |s.tree.tables[a]| == PT.FANOUT && PT.Reach(ENTRY, s.tree, s.tree.owner[a]) == Some(a)
  {
    PT.TableFacts(ENTRY, s.tree, a);
  }

  /** Overwriting the leaf at the path of `virt` changes the entries of that page and no other. */
  lemma WriteEntry(s: Vmm, u: Vmm, a: nat, virt: nat, e: PageEntry)
    requires Inv(s) && a in s.tree.tables && s.tree.owner[a] == Path(virt)[..3]
    requires Slot(s.tree, a, Path(virt)[3])
    requires u.tree == PT.Write(s.tree, a, Path(virt)[3], e)
    ensures PT.Sound(ENTRY, u.tree) && u.tree.tables.Keys == s.tree.tables.Keys
    ensures Entry(s, virt) == s.tree.tables[a][Path(virt)[3]]
    ensures forall v: nat :: Entry(u, v) == if Page(v) == Page(virt) then e else Entry(s, v)
  {
    hide VirtualAddress.Path, VirtualAddress.Page, PT.Reach, UsedSlots, FreshSupply;
    var p := Path(virt);
    LengthFact(s, a);
    assert p == p[..3] + [p[3]];
    PT.WriteLeaf(ENTRY, s.tree, a, p[3], e);
    forall v: nat ensures Entry(u, v) == if Page(v) == Page(virt) then e else Entry(s, v) {
      PathIsPage(v, virt);
    }
  }

  lemma SameEntries(s: Vmm, u: Vmm)
    requires PT.SameLeaves(ENTRY, s.tree, u.tree)
    ensures forall v: nat :: Entry(u, v) == Entry(s, v)
  {
    hide VirtualAddress.Path, PT.Leaf;
  }

  /** `map_page` keeps the invariant and changes its own page only, and only when it succeeds. */
  lemma MapPageKeeps(s: Vmm, virt: nat, phys: nat, flags: nat)
    requires Inv(s)
    ensures var (u, ok) := MapPage(s, virt, phys, flags);
      && Inv(u) && u.tree.root == s.tree.root
      && (forall v: nat :: Entry(u, v) == if ok && Page(v) == Page(virt) then Used(phys, flags) else Entry(s, v))
      && u.overwrites == s.overwrites + (if ok && Entry(s, virt).Used? then 1 else 0)
  {
    hide Descend, PT.SameLeaves, Entry, UsedSlots, FreshSupply, PT.Sound, VirtualAddress.Path, VirtualAddress.Page;
    DescendKeeps(s, virt);
    var d := Descend(s, virt);
    SameEntries(s, d.vmm);
    if d.table.Some? {
      var a, i := d.table.value, Path(virt)[3];
      WriteEntry(d.vmm, SetLeaf(d.vmm, a, i, Used(phys, flags)), a, virt, Used(phys, flags));
      WriteUsed(d.vmm.tree, a, i, Used(phys, flags));
    }
  }

  /**
    `unmap_page` keeps the invariant and leaves exactly its own page unused; it fails only where nothing was mapped.
   */
  lemma UnmapPageKeeps(s: Vmm, virt: nat)
    requires Inv(s)
    ensures var (u, ok) := UnmapPage(s, virt);
      && Inv(u) && u.tree.root == s.tree.root && u.overwrites == s.overwrites && u.supply == s.supply
      && (forall v: nat :: Entry(u, v) == if Page(v) == Page(virt) then Unused else Entry(s, v))
      && (!ok ==> u == s)
  {
    hide Entry, UsedSlots, FreshSupply, PT.Reach, VirtualAddress.Path, VirtualAddress.Page;
    var i, p := Path(virt)[3], Path(virt);
    match PT.Reach(ENTRY, s.tree, Path(virt)[..3])
    case Some(a) =>
      PT.ReachedIsOwned(ENTRY, s.tree, Path(virt)[..3]);
      LengthFact(s, a);
      WriteEntry(s, s.(tree := PT.Write(s.tree, a, i, Unused), pageCount := s.pageCount - 1), a, virt, Unused);
      WriteUsed(s.tree, a, i, Unused);
      SamePage(s, virt);
    case None =>
      MissingIsUnused(s, virt);
      SamePage(s, virt);
  }

  lemma MissingIsUnused(s: Vmm, virt: nat)
    requires PT.Reach(ENTRY, s.tree, Path(virt)[..3]) == None
    ensures Entry(s, virt) == Unused
  {
  }

  lemma SamePage(s: Vmm, virt: nat)
    ensures forall v: nat :: Page(v) == Page(virt) ==> Entry(s, v) == Entry(s, virt)
  {
    hide VirtualAddress.Path, VirtualAddress.Page, PT.Leaf;
    forall v: nat | Page(v) == Page(virt) ensures Entry(s, v) == Entry(s, virt) {
      PathIsPage(v, virt);
    }
  }

  // ---------- When `map_page` succeeds

  /** How many tables are missing on the way to the leaf entry of `virt`. */
  ghost function Missing(s: Vmm, virt: nat): nat {
    var p := Path(virt);
    if PT.Reach(ENTRY, s.tree, p[..3]).Some? then 0
    else if PT.Reach(ENTRY, s.tree, [p[0], p[1]]).Some? then 1
    else if PT.Reach(ENTRY, s.tree, [p[0]]).Some? then 2
    else 3
  }

  predicate Grants(supply: seq<Option<nat>>, n: nat) {
    n <= |supply| && forall k :: 0 <= k < n ==> supply[k].Some?
  }

  ghost predicate BlankTable(s: Spot) {
    s.table.Some? && s.table.value in s.vmm.tree.tables && s.table.value in s.vmm.tree.owner
    && s.vmm.tree.tables[s.table.value] == PT.Blank(ENTRY)
  }

  lemma EnterAnswer(s: Spot, i: nat)
    requires Inv(s.vmm) && i < PT.FANOUT
    requires s.table.Some? && Slot(s.vmm.tree, s.table.value, i)
    ensures var child, r := Next(s.vmm.tree.tables[s.table.value][i]), Enter(s, i);
      if child.Some? then r == Spot(s.vmm, child)
      else if Grants(s.vmm.supply, 1) then BlankTable(r) && r.vmm.supply == s.vmm.supply[1..]
      else r.table == None
  {
    hide PT.Sound, UsedSlots, FreshSupply;
  }

  lemma GrantsNext(supply: seq<Option<nat>>, n: nat)
    ensures Grants(supply, n + 1) <==> Grants(supply, 1) && Grants(supply[1..], n)
  {
    if Grants(supply, 1) && Grants(supply[1..], n) {
      forall k | 0 <= k < n + 1 ensures supply[k].Some? {
        assert k > 0 ==> supply[k] == supply[1..][k - 1];
      }
    }
  }

  lemma EnterNowhere(s: Spot, i: nat)
    requires s.table == None
    ensures Enter(s, i).table == None
  {
  }

  ghost predicate Live(s: Spot, depth: nat) {
    && Inv(s.vmm) && s.table.Some?
    && s.table.value in s.vmm.tree.tables && s.table.value in s.vmm.tree.owner
    && |s.vmm.tree.tables[s.table.value]| == PT.FANOUT && |s.vmm.tree.owner[s.table.value]| == depth
  }

  lemma EnterLive(s: Spot, depth: nat, i: nat)
    requires Live(s, depth) && depth < 3 && i < PT.FANOUT
    ensures Enter(s, i).table.Some? ==> Live(Enter(s, i), depth + 1)
  {
    hide Inv, Enter, PT.SameLeaves;
    EnterKeeps(s, i);
    if Enter(s, i).table.Some? {
      LengthFact(Enter(s, i).vmm, Enter(s, i).table.value);
    }
  }

  /**
    From a live table at depth 2, 1 or 0 the rest of the descent succeeds exactly when the missing tables are granted.
   */
  lemma LastLevel(s: Spot, i: nat)
    requires Live(s, 2) && i < PT.FANOUT
    ensures Enter(s, i).table.Some? <==> Next(s.vmm.tree.tables[s.table.value][i]).Some? || Grants(s.vmm.supply, 1)
    ensures BlankTable(s) ==> (Enter(s, i).table.Some? <==> Grants(s.vmm.supply, 1))
  {
    hide Inv, Enter, Grants;
    EnterAnswer(s, i);
  }

  lemma TwoLevels(s: Spot, i: nat, j: nat)
    requires Live(s, 1) && i < PT.FANOUT && j < PT.FANOUT
    ensures Next(s.vmm.tree.tables[s.table.value][i]) == None ==>
      (Enter(Enter(s, i), j).table.Some? <==> Grants(s.vmm.supply, 2))
    ensures BlankTable(s) ==> (Enter(Enter(s, i), j).table.Some? <==> Grants(s.vmm.supply, 2))
  {
    hide Inv, Enter, Grants;
    EnterAnswer(s, i);
    EnterLive(s, 1, i);
    GrantsNext(s.vmm.supply, 1);
    BlankHolds(s, i);
    if Enter(s, i).table.Some? {
      LastLevel(Enter(s, i), j);
    } else {
      EnterNowhere(Enter(s, i), j);
    }
  }

  lemma BlankHolds(s: Spot, i: nat)
    requires i < PT.FANOUT
    ensures BlankTable(s) ==> Next(s.vmm.tree.tables[s.table.value][i]) == None
  {
  }

  lemma ThreeLevels(s: Spot, i: nat, j: nat, k: nat)
    requires Live(s, 0) && i < PT.FANOUT && j < PT.FANOUT && k < PT.FANOUT
    requires Next(s.vmm.tree.tables[s.table.value][i]) == None
    ensures Enter(Enter(Enter(s, i), j), k).table.Some? <==> Grants(s.vmm.supply, 3)
  {
    hide Inv, Enter, Grants;
    EnterAnswer(s, i);
    EnterLive(s, 0, i);
    GrantsNext(s.vmm.supply, 2);
    if Enter(s, i).table.Some? {
      TwoLevels(Enter(s, i), j, k);
    } else {
      EnterNowhere(Enter(s, i), j);
      EnterNowhere(Enter(Enter(s, i), j), k);
    }
  }

  /** `map_page` succeeds exactly when the allocator grants the tables that are missing. */
  lemma MapPageSucceedsIff(s: Vmm, virt: nat, phys: nat, flags: nat)
    requires Inv(s)
    ensures MapPage(s, virt, phys, flags).1 <==> Grants(s.supply, Missing(s, virt))
  {
    hide Inv, Enter, Grants, BlankTable, PT.Reach, PT.SameLeaves, VirtualAddress.Path;
    var p := Path(virt);
    DescendKeeps(s, virt);
    RootFacts(s);
    LengthFact(s, s.tree.root);
    Levels(s, p);
    var a := Spot(s, Some(s.tree.root));
    EnterAnswer(a, p[0]);
    if PT.Reach(ENTRY, s.tree, [p[0]]) == None {
      ThreeLevels(a, p[0], p[1], p[2]);
    } else {
      EnterLive(a, 0, p[0]);
      var b := Enter(a, p[0]);
      EnterAnswer(b, p[1]);
      if PT.Reach(ENTRY, s.tree, [p[0], p[1]]) == None {
        TwoLevels(b, p[1], p[2]);
      } else {
        EnterLive(b, 1, p[1]);
        LastLevel(Enter(b, p[1]), p[2]);
        GrantsNone(s.supply);
      }
    }
  }

  lemma GrantsNone(supply: seq<Option<nat>>)
    ensures Grants(supply, 0)
  {
  }

  lemma Levels(s: Vmm, p: seq<nat>)
    requires Inv(s) && |p| == 4 && PT.Indices(p)
    ensures s.tree.root in s.tree.tables && p[0] < |s.tree.tables[s.tree.root]|
    ensures PT.Reach(ENTRY, s.tree, [p[0]]) == Next(s.tree.tables[s.tree.root][p[0]])
    ensures PT.Reach(ENTRY, s.tree, [p[0]]).Some? ==>
      var a := PT.Reach(ENTRY, s.tree, [p[0]]).value;
      && a in s.tree.tables && p[1] < |s.tree.tables[a]|
      && PT.Reach(ENTRY, s.tree, [p[0], p[1]]) == Next(s.tree.tables[a][p[1]])
    ensures PT.Reach(ENTRY, s.tree, [p[0], p[1]]).Some? ==>
      var a := PT.Reach(ENTRY, s.tree, [p[0], p[1]]).value;
      a in s.tree.tables && p[2] < |s.tree.tables[a]| && PT.Reach(ENTRY, s.tree, p[..3]) == Next(s.tree.tables[a][p[2]])
    ensures PT.Reach(ENTRY, s.tree, [p[0]]) == None ==> PT.Reach(ENTRY, s.tree, [p[0], p[1]]) == None
    ensures PT.Reach(ENTRY, s.tree, [p[0], p[1]]) == None ==> PT.Reach(ENTRY, s.tree, p[..3]) == None
  {
    PT.ReachThree(ENTRY, s.tree, p);
    PT.ReachSnoc(ENTRY, s.tree, [p[0]], p[1]);
    assert [p[0]] + [p[1]] == [p[0], p[1]];
  }
}
