/**
  How many frames the range operations of src/memory/virtual.rs need, when they succeed, and which frame each page gets.
 */
module VirtualGrants {
  import opened Options
  import opened VirtualAddress
  import opened VirtualMemory
  import opened VirtualRanges
  import PT = PageTree

  /** The table for a path of at most three indices exists. */
  ghost predicate Has(s: Vmm, q: seq<nat>) {
    PT.Reach(ENTRY, s.tree, q).Some?
  }

  /** The paths of the three tables on the way to an address. */
  ghost function Upward(virt: nat): set<seq<nat>> {
    {Path(virt)[..1], Path(virt)[..2], Path(virt)[..3]}
  }

  /** The tables that mapping pages `i` to `n` of the range must create. */
  ghost function Needed(s: Vmm, base: nat, i: nat, n: nat): set<seq<nat>>
    decreases n - i
  {
    if i >= n then {} else MissingTables(s, At(base, i)) + Needed(s, base, i + 1, n)
  }

  ghost function MissingTables(s: Vmm, virt: nat): set<seq<nat>> {
    set q | q in Upward(virt) && !Has(s, q)
  }

  // ---------- One level

  lemma EnterHas(s: Spot, i: nat)
    requires Inv(s.vmm) && s.table.Some? && s.table.value in s.vmm.tree.tables && i < PT.FANOUT
    requires |s.vmm.tree.owner[s.table.value]| < 3 && Enter(s, i).table.Some?
    ensures var q := s.vmm.tree.owner[s.table.value] + [i];
      && (forall p :: |p| <= 3 ==> (Has(Enter(s, i).vmm, p) <==> Has(s.vmm, p) || p == q))
      && (if Has(s.vmm, q) then Enter(s, i).vmm.supply == s.vmm.supply
          else s.vmm.supply != [] && Enter(s, i).vmm.supply == s.vmm.supply[1..])
  {
    hide PT.Reach, UsedSlots, FreshSupply;
    var t, a := s.vmm.tree, s.table.value;
    PT.TableFacts(ENTRY, t, a);
    PT.ReachSnoc(ENTRY, t, t.owner[a], i);
    TakeKeeps(s.vmm);
    if Next(t.tables[a][i]) == None {
      var b := Take(s.vmm).0.value;
      forall p | |p| <= 3 ensures Has(Enter(s, i).vmm, p) <==> Has(s.vmm, p) || p == t.owner[a] + [i] {
        PT.GrowReach(ENTRY, t, a, i, b, p);
      }
    }
  }

  // ---------- One page

  lemma DescendHas(s: Vmm, virt: nat)
    requires Inv(s) && Descend(s, virt).table.Some?
    ensures var d := Descend(s, virt).vmm;
      && (forall p :: |p| <= 3 ==> (Has(d, p) <==> Has(s, p) || p in Upward(virt)))
      && |MissingTables(s, virt)| <= |s.supply| && d.supply == s.supply[|MissingTables(s, virt)|..]
  {
    hide Inv, Enter, Has, VirtualAddress.Path;
    var p := Path(virt);
    var a := Spot(s, Some(s.tree.root));
    var b := Enter(a, p[0]);
    var c := Enter(b, p[1]);
    RootFacts(s);
    NowhereStays(b, p[1]);
    NowhereStays(c, p[2]);
    EnterKeeps(a, p[0]);
    EnterHas(a, p[0]);
    EnterKeeps(b, p[1]);
    EnterHas(b, p[1]);
    EnterHas(c, p[2]);
    UpwardIs(p, virt);
    CountMissing(s, virt);
  }

  lemma NowhereStays(s: Spot, i: nat)
    ensures s.table == None ==> Enter(s, i).table == None
  {
  }

  lemma UpwardIs(p: seq<nat>, virt: nat)
    requires p == Path(virt)
    ensures [] + [p[0]] == p[..1] && p[..1] + [p[1]] == p[..2] && p[..2] + [p[2]] == p[..3]
    ensures p[..1] != p[..2] && p[..2] != p[..3] && p[..1] != p[..3]
    ensures Upward(virt) == {p[..1], p[..2], p[..3]}
  {
    assert |p[..1]| == 1 && |p[..2]| == 2 && |p[..3]| == 3;
  }

  lemma CountMissing(s: Vmm, virt: nat)
    ensures var p := Path(virt);
      |MissingTables(s, virt)| ==
      (if Has(s, p[..1]) then 0 else 1) + (if Has(s, p[..2]) then 0 else 1) + (if Has(s, p[..3]) then 0 else 1)
  {
    hide Has, VirtualAddress.Path;
    var p := Path(virt);
    UpwardIs(p, virt);
    CountThree(p[..1], p[..2], p[..3], Has(s, p[..1]), Has(s, p[..2]), Has(s, p[..3]), MissingTables(s, virt));
  }

  lemma CountThree(x: seq<nat>, y: seq<nat>, z: seq<nat>, a: bool, b: bool, c: bool, m: set<seq<nat>>)
    requires x != y && y != z && x != z
    requires forall q :: q in m <==> (q == x && !a) || (q == y && !b) || (q == z && !c)
    ensures |m| == (if a then 0 else 1) + (if b then 0 else 1) + (if c then 0 else 1)
  {
    var k: set<seq<nat>> := if a then {} else {x};
    var l: set<seq<nat>> := if b then k else k + {y};
    assert m == if c then l else l + {z};
  }

  lemma MissingCount(s: Vmm, virt: nat)
    requires Inv(s)
    ensures |MissingTables(s, virt)| == Missing(s, virt)
  {
    hide Inv, PT.Reach, VirtualAddress.Path;
    var p := Path(virt);
    CountMissing(s, virt);
    Levels(s, p);
    assert p[..1] == [p[0]] && p[..2] == [p[0], p[1]];
  }

  /** What a successful `map_page` does to the tables and to the supply. */
  lemma MapPageHas(s: Vmm, virt: nat, phys: nat, flags: nat)
    requires Inv(s) && MapPage(s, virt, phys, flags).1
    ensures var u := MapPage(s, virt, phys, flags).0;
      && (forall p :: |p| <= 3 ==> (Has(u, p) <==> Has(s, p) || p in Upward(virt)))
      && |MissingTables(s, virt)| <= |s.supply| && u.supply == s.supply[|MissingTables(s, virt)|..]
  {
    hide Descend, PT.Reach, VirtualAddress.Path, UsedSlots, FreshSupply, Upward, MissingTables;
    DescendHas(s, virt);
    DescendKeeps(s, virt);
    var d, u := Descend(s, virt), MapPage(s, virt, phys, flags).0;
    forall p | |p| <= 3 ensures Has(u, p) <==> Has(d.vmm, p) {
      PT.WriteReach(ENTRY, d.vmm.tree, d.table.value, Path(virt)[3], Used(phys, flags), p);
    }
  }

  // ---------- One round

  /** The frames that a round takes for its page. */
  function PageFrames(phys: Option<nat>, n: nat): nat {
    if phys == None then n else 0
  }

  lemma GrantsSplit(supply: seq<Option<nat>>, a: nat, b: nat)
    ensures Grants(supply, a + b) <==> Grants(supply, a) && a <= |supply| && Grants(supply[a..], b)
  {
    if Grants(supply, a) && Grants(supply[a..], b) {
      forall k | 0 <= k < a + b ensures supply[k].Some? {
        if k >= a {
          assert supply[a..][k - a].Some?;
        }
      }
    }
  }

  lemma GrantsLess(supply: seq<Option<nat>>, a: nat, b: nat)
    requires a <= b && Grants(supply, b)
    ensures Grants(supply, a)
  {
  }

  /** A round succeeds exactly when its page frame and its missing tables are granted; what it then leaves. */
  lemma RoundGrants(s: Vmm, base: nat, phys: Option<nat>, flags: nat, i: nat)
    requires Inv(s)
    ensures var (u, ok) := MapRound(s, base, phys, flags, i);
      var cost := PageFrames(phys, 1) + |MissingTables(s, At(base, i))|;
      && (ok <==> Grants(s.supply, cost))
      && (ok ==>
            && cost <= |s.supply| && u.supply == s.supply[cost..]
            && (forall p :: |p| <= 3 ==> (Has(u, p) <==> Has(s, p) || p in Upward(At(base, i)))))
      && (phys == None && ok ==> FrameFor(s, phys, i).0 == s.supply[0])
  {
    hide Inv, MapPage, VirtualAddress.At, Upward, Has, Missing;
    var (f, t) := FrameFor(s, phys, i);
    var virt := At(base, i);
    TakeState(s);
    SameHas(s, t);
    SameMissing(s, t, virt);
    GrantsSplit(s.supply, PageFrames(phys, 1), |MissingTables(s, virt)|);
    GrantsOne(s.supply);
    if f.Some? {
      MissingCount(t, virt);
      MapPageSucceedsIff(t, virt, f.value, flags);
      if MapPage(t, virt, f.value, flags).1 {
        MapPageHas(t, virt, f.value, flags);
      }
    }
  }

  lemma GrantsOne(supply: seq<Option<nat>>)
    ensures Grants(supply, 0) && (Grants(supply, 1) <==> supply != [] && supply[0].Some?)
  {
  }

  lemma SameHas(s: Vmm, t: Vmm)
    requires t.tree == s.tree
    ensures forall p :: Has(t, p) <==> Has(s, p)
  {
  }

  lemma SameMissing(s: Vmm, t: Vmm, virt: nat)
    requires t.tree == s.tree
    ensures MissingTables(t, virt) == MissingTables(s, virt)
  {
    hide PT.Reach, Upward;
  }

  // ---------- A range

  lemma {:induction false} NeededIn(s: Vmm, base: nat, i: nat, n: nat, q: seq<nat>)
    ensures q in Needed(s, base, i, n) <==> !Has(s, q) && exists j: nat :: i <= j < n && q in Upward(At(base, j))
    decreases n - i
  {
    hide Has, Upward, VirtualAddress.At;
    if i < n {
      NeededIn(s, base, i + 1, n, q);
    }
  }

  lemma UpwardShort(virt: nat, q: seq<nat>)
    ensures q in Upward(virt) ==> |q| <= 3
  {
    hide VirtualAddress.Path;
  }

  /** The tables a range needs are those of its first page and those the rest needs once the first is mapped. */
  lemma NeededSplit(s: Vmm, u: Vmm, base: nat, i: nat, n: nat)
    requires i < n
    requires forall p :: |p| <= 3 ==> (Has(u, p) <==> Has(s, p) || p in Upward(At(base, i)))
    ensures |Needed(s, base, i, n)| == |MissingTables(s, At(base, i))| + |Needed(u, base, i + 1, n)|
  {
    hide Has, Upward, VirtualAddress.At, Needed;
    var whole, first, rest := Needed(s, base, i, n), MissingTables(s, At(base, i)), Needed(u, base, i + 1, n);
    forall q ensures q in whole <==> q in first || q in rest {
      NeededIn(s, base, i, n, q);
      NeededIn(u, base, i + 1, n, q);
      if j: nat :| i <= j < n && q in Upward(At(base, j)) {
        UpwardShort(At(base, j), q);
      }
    }
    forall q | q in first ensures q !in rest {
      NeededIn(u, base, i + 1, n, q);
      UpwardShort(At(base, i), q);
    }
    assert whole == first + rest && first !! rest;
  }

  /**
    The frames that mapping pages `i` to `n` takes: one for each page, unless frames are given, and one for each table.
   */
  ghost function Cost(s: Vmm, base: nat, phys: Option<nat>, i: nat, n: nat): nat
    requires i <= n
  {
    PageFrames(phys, n - i) + |Needed(s, base, i, n)|
  }

  /** A mapping loop succeeds exactly when the supply grants all the frames it needs. */
  lemma {:induction false} MapRunSucceedsIff(s: Vmm, base: nat, phys: Option<nat>, flags: nat, i: nat, n: nat)
    requires Inv(s) && i <= n
    ensures MapRun(s, base, phys, flags, i, n).1 <==> Grants(s.supply, Cost(s, base, phys, i, n))
    decreases n - i
  {
    hide Inv, MapRound, FrameFor, Has, Upward, VirtualAddress.At, MissingTables, Needed;
    if i == n {
      NeededNone(s, base, n);
      GrantsOne(s.supply);
    } else {
      var (u, ok) := MapRound(s, base, phys, flags, i);
      var cost := PageFrames(phys, 1) + |MissingTables(s, At(base, i))|;
      RoundGrants(s, base, phys, flags, i);
      MapRoundKeeps(s, base, phys, flags, i);
      NeededAtLeast(s, base, i, n);
      if ok {
        MapRunSucceedsIff(u, base, phys, flags, i + 1, n);
        NeededSplit(s, u, base, i, n);
        GrantsSplit(s.supply, cost, Cost(u, base, phys, i + 1, n));
      } else if Grants(s.supply, Cost(s, base, phys, i, n)) {
        GrantsLess(s.supply, cost, Cost(s, base, phys, i, n));
      }
    }
  }

  lemma NeededNone(s: Vmm, base: nat, n: nat)
    ensures Needed(s, base, n, n) == {}
  {
  }

  lemma NeededAtLeast(s: Vmm, base: nat, i: nat, n: nat)
    requires i < n
    ensures |MissingTables(s, At(base, i))| <= |Needed(s, base, i, n)|
  {
    hide Has, Upward, VirtualAddress.At;
    var first, rest := MissingTables(s, At(base, i)), Needed(s, base, i + 1, n);
    assert first + rest == first + (rest - first) && first !! (rest - first);
  }

  /** No later page of the range is the page of round `j`. */
  ghost predicate LastVisit(base: nat, j: nat, n: nat) {
    !Touches(base, j + 1, n, At(base, j))
  }

  /**
    After a successful loop the page of round `j`, unless visited again, has the frame that the supply gave that round.
   */
  lemma {:induction false} MapRunFrames(s: Vmm, base: nat, flags: nat, i: nat, n: nat, j: nat)
    requires Inv(s) && i <= j < n && LastVisit(base, j, n) && MapRun(s, base, None, flags, i, n).1
    ensures var k := Cost(s, base, None, i, j);
      && k < |s.supply| && s.supply[k].Some?
      && Entry(MapRun(s, base, None, flags, i, n).0, At(base, j)) == Used(s.supply[k].value, flags)
    decreases n - i
  {
    hide Inv, Entry, MapRound, Has, Upward, VirtualAddress.At, VirtualAddress.Page, MissingTables, Needed, Touches;
    var (u, ok) := MapRound(s, base, None, flags, i);
    RoundGrants(s, base, None, flags, i);
    MapRoundKeeps(s, base, None, flags, i);
    GrantsOne(s.supply);
    if i < j {
      MapRunFrames(u, base, flags, i + 1, n, j);
      NeededSplit(s, u, base, i, j);
    } else {
      NeededNone(s, base, i);
      MapRunKeeps(u, base, None, flags, i + 1, n);
      GrantsLess(s.supply, 1, 1 + |MissingTables(s, At(base, i))|);
    }
  }

  // ---------- `mmap`, `munmap` and `allocate_user_pages`

  /**
    Where `mmap` puts its pages: at the address given, if it lies in user space with its length, or in the first free
    range.
   */
  ghost predicate Places(s: Vmm, addr: nat, length: nat, base: nat) {
    if addr != 0 then base == addr && 0x10_0000 <= addr && addr + length < 0x8000_0000_0000 && addr < 0x8000_0000_0000
    else FindFree(s, PageCount(length)) == Ok(base)
  }

  /**
    `mmap` with a given address or none. It refuses an address outside user space and a length with no free range, and
    then changes nothing. Otherwise it succeeds exactly when the supply grants a frame for each page and for each
    missing table; it returns the base, each page has the protection asked for and the frame that its round took from
    the supply, and no other page changes.
   */
  lemma MmapExact(s: Vmm, addr: nat, length: nat, prot: nat)
    requires Inv(s)
    ensures var (u, r) := Mmap(s, addr, length, prot);
      (forall base: nat :: !Places(s, addr, length, base)) ==>
        u == s && r == Err(if addr != 0 then InvalidAddress else OutOfMemory)
    ensures var (u, r) := Mmap(s, addr, length, prot);
      var n := PageCount(length);
      forall base: nat :: Places(s, addr, length, base) ==>
        && r == (if Grants(s.supply, n + |Needed(s, base, 0, n)|) then Ok(base) else Err(OutOfMemory))
        && (forall v: nat :: !Touches(base, 0, n, v) ==> Entry(u, v) == Entry(s, v))
        && (r.Ok? ==> forall j: nat :: j < n && LastVisit(base, j, n) ==>
              var k := j + |Needed(s, base, 0, j)|;
              && k < |s.supply| && s.supply[k].Some?
              && Entry(u, At(base, j)) == Used(s.supply[k].value, prot))
  {
    hide Inv, Entry, MapRun, FindFrom, VirtualAddress.At, VirtualAddress.PageCount, Touches, Needed, LastVisit;
    var n := PageCount(length);
    FindFreeIsLeast(s, n);
    if addr != 0 && 0x10_0000 <= addr && addr + length < 0x8000_0000_0000 {
      assert Places(s, addr, length, addr);
    }
    if addr == 0 && FindFree(s, n).Ok? {
      assert Places(s, addr, length, FindFree(s, n).value);
    }
    forall base: nat | Places(s, addr, length, base)
      ensures Mmap(s, addr, length, prot).0 == MapRun(s, base, None, prot, 0, n).0
      ensures Mmap(s, addr, length, prot).1 ==
        if Grants(s.supply, n + |Needed(s, base, 0, n)|) then Ok(base) else Err(OutOfMemory)
      ensures forall v: nat :: !Touches(base, 0, n, v) ==> Entry(Mmap(s, addr, length, prot).0, v) == Entry(s, v)
      ensures Mmap(s, addr, length, prot).1.Ok? ==> forall j: nat :: j < n && LastVisit(base, j, n) ==>
        var k := j + |Needed(s, base, 0, j)|;
        k < |s.supply| && s.supply[k].Some? && Entry(Mmap(s, addr, length, prot).0,
          At(base, j)) == Used(s.supply[k].value, prot)
    {
      MapRunSucceedsIff(s, base, None, prot, 0, n);
      MapRunKeeps(s, base, None, prot, 0, n);
      forall j: nat | MapRun(s, base, None, prot, 0, n).1 && j < n && LastVisit(base, j, n)
        ensures var k := j + |Needed(s, base, 0, j)|;
          k < |s.supply| && s.supply[k].Some?
          && Entry(MapRun(s, base, None, prot, 0, n).0, At(base, j)) == Used(s.supply[k].value, prot)
      {
        MapRunFrames(s, base, prot, 0, n, j);
      }
    }
  }

  /** In a range of at most 2^36 pages every visit is the last. */
  lemma ShortRange(base: nat, j: nat, n: nat)
    requires j < n <= 0x10_0000_0000
    ensures LastVisit(base, j, n)
  {
    hide VirtualAddress.At, VirtualAddress.Page;
    forall k: nat | j + 1 <= k < n ensures Page(At(base, j)) != Page(At(base, k)) {
      PagesDistinct(base, j, k);
    }
  }

  /**
    `allocate_user_pages` succeeds exactly when its frames and a free range are there and each missing table is granted.
   */
  lemma AllocateUserSucceedsIff(s: Vmm, count: nat, flags: nat, frames: Option<nat>)
    requires Inv(s)
    ensures AllocateUserPages(s, count, flags, frames).1.Ok? <==>
      frames.Some? && FindFree(s, count).Ok? && Grants(s.supply, |Needed(s, FindFree(s, count).value, 0, count)|)
  {
    hide Inv, MapRun, FindFrom, Needed;
    if frames.Some? && FindFree(s, count).Ok? {
      MapRunSucceedsIff(s, FindFree(s, count).value, frames, flags, 0, count);
    }
  }

  /**
    `munmap` unmaps the pages of its range up to the first whose leaf table is missing, and no other; it succeeds
    exactly when none is missing.
   */
  lemma MunmapExact(s: Vmm, addr: nat, length: nat) returns (m: nat)
    requires Inv(s)
    ensures m <= PageCount(length) && (forall j: nat :: j < m ==> TableAt(s, At(addr, j)))
    ensures m < PageCount(length) ==> !TableAt(s, At(addr, m))
    ensures var (u, r) := Munmap(s, addr, length);
      && (r == if m == PageCount(length) then Ok(()) else Err(InvalidAddress))
      && (forall v: nat :: Entry(u, v) == if Touches(addr, 0, m, v) then Unused else Entry(s, v))
  {
    hide Inv, Entry, UnmapRun, TableAt, VirtualAddress.At, VirtualAddress.PageCount, Touches;
    m := UnmapRunStops(s, addr, 0, PageCount(length));
  }

  lemma {:induction false} UnmapRunStops(s: Vmm, base: nat, i: nat, n: nat) returns (m: nat)
    requires Inv(s) && i <= n
    ensures i <= m <= n && (forall j: nat :: i <= j < m ==> TableAt(s, At(base, j)))
    ensures m < n ==> !TableAt(s, At(base, m))
    ensures var (u, ok) := UnmapRun(s, base, i, n);
      && (ok <==> m == n)
      && (forall v: nat :: Entry(u, v) == if Touches(base, i, m, v) then Unused else Entry(s, v))
    decreases n - i
  {
    hide Inv, Entry, UnmapPage, TableAt, VirtualAddress.At, VirtualAddress.Page, Touches;
    m := i;
    TouchesNone(base, i);
    if i < n {
      var (u, ok) := UnmapPage(s, At(base, i));
      UnmapOk(s, At(base, i));
      UnmapPageKeeps(s, At(base, i));
      if ok {
        m := UnmapRunStops(u, base, i + 1, n);
        TouchesSplit(base, i, m);
        SameTables(s, u, base, i);
      }
    }
  }

  lemma SameTables(s: Vmm, u: Vmm, base: nat, i: nat)
    requires Inv(s) && u == UnmapPage(s, At(base, i)).0
    ensures forall v: nat :: TableAt(u, v) <==> TableAt(s, v)
  {
    hide VirtualAddress.Path, PT.Reach, UsedSlots, FreshSupply;
    var p := Path(At(base, i));
    var r := PT.Reach(ENTRY, s.tree, p[..3]);
    if r.Some? {
      PT.ReachedIsOwned(ENTRY, s.tree, p[..3]);
      forall v: nat ensures TableAt(u, v) <==> TableAt(s, v) {
        PT.WriteReach(ENTRY, s.tree, r.value, p[3], Unused, Path(v)[..3]);
      }
    }
  }

  lemma TouchesNone(base: nat, i: nat)
    ensures forall v: nat :: !Touches(base, i, i, v)
  {
  }

  lemma TouchesSplit(base: nat, i: nat, m: nat)
    requires i < m
    ensures forall v: nat :: Touches(base, i, m, v) <==> Page(v) == Page(At(base, i)) || Touches(base, i + 1, m, v)
  {
    hide VirtualAddress.At, VirtualAddress.Page;
  }
}
