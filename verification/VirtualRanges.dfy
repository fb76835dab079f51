/** The free-range search and the multi-page operations of src/memory/virtual.rs. */
module VirtualRanges {
  import opened Options
  import opened VirtualAddress
  import opened VirtualMemory
  import PT = PageTree

  /** None of the `count` pages from `base` on is mapped. */
  ghost predicate FreeAt(s: Vmm, base: nat, count: nat) {
    forall i: nat :: i < count ==> Translate(s, At(base, i)) == None
  }

  /** The search of `find_free_virtual_range` from `base` on. */
  ghost function FindFrom(s: Vmm, base: nat, count: nat): Result<nat>
    decreases USER_SPACE_END - base
  {
    if base >= USER_SPACE_END then Err(OutOfMemory)
    else if FreeAt(s, base, count) then Ok(base)
    else FindFrom(s, (base + 0x1000) / 0x1000 * 0x1000, count)
  }

  ghost function FindFree(s: Vmm, count: nat): Result<nat> {
    FindFrom(s, USER_SPACE_BASE, count)
  }

  lemma NextPage(base: nat)
    requires base % 0x1000 == 0
    ensures (base + 0x1000) / 0x1000 * 0x1000 == base + 0x1000 && (base + 0x1000) % 0x1000 == 0
    ensures forall c {:trigger c % 0x1000} :: base < c && c % 0x1000 == 0 ==> base + 0x1000 <= c
  {
  }

  lemma {:induction false} FindFromIsLeast(s: Vmm, base: nat, count: nat)
    requires base % 0x1000 == 0
    ensures match FindFrom(s, base, count)
      case Ok(b) =>
        && base <= b < USER_SPACE_END && b % 0x1000 == 0 && FreeAt(s, b, count)
        && (forall c :: base <= c < b && c % 0x1000 == 0 ==> !FreeAt(s, c, count))
      case Err(e) =>
        && e == OutOfMemory
        && (forall c :: base <= c < USER_SPACE_END && c % 0x1000 == 0 ==> !FreeAt(s, c, count))
    decreases USER_SPACE_END - base
  {
    hide FreeAt;
    if base < USER_SPACE_END && !FreeAt(s, base, count) {
      NextPage(base);
      FindFromIsLeast(s, base + 0x1000, count);
    }
  }

  /** The search returns the least page-aligned base whose pages are all unmapped, and fails only if there is none. */
  lemma FindFreeIsLeast(s: Vmm, count: nat)
    ensures match FindFree(s, count)
      case Ok(b) =>
        && USER_SPACE_BASE <= b < USER_SPACE_END && b % 0x1000 == 0 && FreeAt(s, b, count)
        && (forall c :: USER_SPACE_BASE <= c < b && c % 0x1000 == 0 ==> !FreeAt(s, c, count))
      case Err(e) =>
        && e == OutOfMemory
        && (forall c :: USER_SPACE_BASE <= c < USER_SPACE_END && c % 0x1000 == 0 ==> !FreeAt(s, c, count))
  {
    hide FreeAt, FindFrom;
    FindFromIsLeast(s, USER_SPACE_BASE, count);
  }

  /** A free range that lies wholly in user space. */
  ghost predicate FreeInside(s: Vmm, base: nat, count: nat) {
    USER_SPACE_BASE <= base && At(base, count) <= USER_SPACE_END && base % 0x1000 == 0 && FreeAt(s, base, count)
  }

  /** The search bounds the base only; its range lies wholly in user space exactly when some free range does. */
  lemma FindFreeInsideIff(s: Vmm, count: nat)
    ensures FindFree(s, count).Ok? && FreeInside(s, FindFree(s, count).value, count) <==>
      exists base: nat :: FreeInside(s, base, count)
  {
    hide FreeAt, FindFrom;
    FindFreeIsLeast(s, count);
    if count == 0 {
      NoPages(s, USER_SPACE_BASE);
      assert FreeInside(s, FindFree(s, count).value, count);
    } else if base: nat :| FreeInside(s, base, count) {
      assert base < USER_SPACE_END;
    }
  }

  lemma NoPages(s: Vmm, base: nat)
    ensures FreeAt(s, base, 0)
  {
  }

  /** The frame for page `i` of a range: consecutive from `phys`, or else newly allocated. */
  function FrameFor(s: Vmm, phys: Option<nat>, i: nat): (Option<nat>, Vmm) {
    if phys.Some? then (Some(At(phys.value, i)), s) else Take(s)
  }

  /** One round of a mapping loop. */
  ghost function MapRound(s: Vmm, base: nat, phys: Option<nat>, flags: nat, i: nat): (Vmm, bool) {
    var (frame, t) := FrameFor(s, phys, i);
    if frame == None then (t, false) else MapPage(t, At(base, i), frame.value, flags)
  }

  /** Maps pages `i` to `n` of a range. */
  ghost function MapRun(s: Vmm, base: nat, phys: Option<nat>, flags: nat, i: nat, n: nat): (Vmm, bool)
    decreases n - i
  {
    if i >= n then (s, true)
    else
      var (u, ok) := MapRound(s, base, phys, flags, i);
      if ok then MapRun(u, base, phys, flags, i + 1, n) else (u, false)
  }

  /** `munmap`'s loop: it stops at the first page that has no leaf table. */
  ghost function UnmapRun(s: Vmm, base: nat, i: nat, n: nat): (Vmm, bool)
    decreases n - i
  {
    if i >= n then (s, true)
    else
      var (u, ok) := UnmapPage(s, At(base, i));
      if ok then UnmapRun(u, base, i + 1, n) else (u, false)
  }

  predicate ValidUserRange(start: nat, len: nat) {
    USER_SPACE_BASE <= start < USER_SPACE_END && start + len < USER_SPACE_END
  }

  ghost function Mmap(s: Vmm, addr: nat, length: nat, prot: nat): (Vmm, Result<nat>) {
    var n := PageCount(length);
    if addr != 0 && !ValidUserRange(addr, length) then (s, Err(InvalidAddress))
    else
      var base := if addr != 0 then Ok(addr) else FindFree(s, n);
      if base.Err? then (s, base)
      else
        var (u, ok) := MapRun(s, base.value, None, prot, 0, n);
        (u, if ok then base else Err(OutOfMemory))
  }

  ghost function Munmap(s: Vmm, addr: nat, length: nat): (Vmm, Result<()>) {
    var (u, ok) := UnmapRun(s, addr, 0, PageCount(length));
    (u, if ok then Ok(()) else Err(InvalidAddress))
  }

  /** `allocate_user_pages`; `frames` is the answer of `alloc_pages(count)`. */
  ghost function AllocateUserPages(s: Vmm, count: nat, flags: nat, frames: Option<nat>): (Vmm, Result<nat>) {
    if frames == None then (s, Err(OutOfMemory))
    else
      var base := FindFree(s, count);
      if base.Err? then (s, base)
      else
        var (u, ok) := MapRun(s, base.value, frames, flags, 0, count);
        (u, if ok then base else Err(OutOfMemory))
  }

  /** The page of `v` is one of pages `i` to `n` of the range at `base`. */
  ghost predicate Touches(base: nat, i: nat, n: nat, v: nat) {
    exists j: nat :: i <= j < n && Page(v) == Page(At(base, j))
  }

  lemma TakeState(s: Vmm)
    requires Inv(s)
    ensures Inv(Take(s).1) && Take(s).1.tree == s.tree
    ensures forall v: nat :: Entry(Take(s).1, v) == Entry(s, v)
  {
    hide Inv, Take, VirtualAddress.Path;
    TakeKeeps(s);
  }

  lemma MapRoundKeeps(s: Vmm, base: nat, phys: Option<nat>, flags: nat, i: nat)
    requires Inv(s)
    ensures var (u, ok) := MapRound(s, base, phys, flags, i);
      && Inv(u) && u.tree.root == s.tree.root
      && (ok ==> FrameFor(s, phys, i).0.Some?)
      && (forall v: nat :: Entry(u, v) ==
           if ok && Page(v) == Page(At(base, i)) then Used(FrameFor(s, phys, i).0.value, flags) else Entry(s, v))
  {
    hide Inv, Entry, MapPage, Take, VirtualAddress.At, VirtualAddress.Page;
    TakeState(s);
    var (frame, t) := FrameFor(s, phys, i);
    if frame.Some? {
      MapPageKeeps(t, At(base, i), frame.value, flags);
    }
  }

  /** A mapping loop keeps the invariant and changes only pages of its range. */
  lemma {:induction false} MapRunKeeps(s: Vmm, base: nat, phys: Option<nat>, flags: nat, i: nat, n: nat)
    requires Inv(s)
    ensures var u := MapRun(s, base, phys, flags, i, n).0;
      && Inv(u) && u.tree.root == s.tree.root
      && (forall v: nat :: !Touches(base, i, n, v) ==> Entry(u, v) == Entry(s, v))
    decreases n - i
  {
    hide Inv, Entry, MapRound, FrameFor, VirtualAddress.At, VirtualAddress.Page;
    if i < n {
      MapRoundKeeps(s, base, phys, flags, i);
      var (u, ok) := MapRound(s, base, phys, flags, i);
      if ok {
        MapRunKeeps(u, base, phys, flags, i + 1, n);
      }
    }
  }

  /** A mapping loop never unmaps a page, and on success every page of its range is mapped. */
  lemma {:induction false} MapRunMaps(s: Vmm, base: nat, phys: Option<nat>, flags: nat, i: nat, n: nat)
    requires Inv(s)
    ensures var (u, ok) := MapRun(s, base, phys, flags, i, n);
      && (forall v: nat :: Entry(s, v).Used? ==> Entry(u, v).Used?)
      && (ok ==> forall j: nat :: i <= j < n ==> Entry(u, At(base, j)).Used?)
    decreases n - i
  {
    hide Inv, Entry, MapRound, FrameFor, VirtualAddress.At, VirtualAddress.Page;
    if i < n {
      MapRoundKeeps(s, base, phys, flags, i);
      var (u, ok) := MapRound(s, base, phys, flags, i);
      if ok {
        MapRunMaps(u, base, phys, flags, i + 1, n);
        assert Entry(u, At(base, i)).Used?;
      }
    }
  }

  /** A successful loop over given frames maps page `j` of the range to frame `j`, if the pages are distinct. */
  lemma {:induction false} MapRunExact(s: Vmm, base: nat, phys: nat, flags: nat, i: nat, n: nat, j: nat)
    requires Inv(s) && i <= j < n <= i + 0x10_0000_0000
    requires MapRun(s, base, Some(phys), flags, i, n).1
    ensures Entry(MapRun(s, base, Some(phys), flags, i, n).0, At(base, j)) == Used(At(phys, j), flags)
    decreases n - i
  {
    hide Inv, Entry, MapRound, VirtualAddress.At, VirtualAddress.Page;
    MapRoundKeeps(s, base, Some(phys), flags, i);
    var (u, ok) := MapRound(s, base, Some(phys), flags, i);
    if i < j {
      MapRunExact(u, base, phys, flags, i + 1, n, j);
    } else {
      MapRunKeeps(u, base, Some(phys), flags, i + 1, n);
      forall k: nat | i + 1 <= k < n ensures Page(At(base, i)) != Page(At(base, k)) {
        PagesDistinct(base, i, k);
      }
      assert !Touches(base, i + 1, n, At(base, i));
    }
  }

  lemma TouchesFirst(base: nat, i: nat, n: nat)
    requires i < n
    ensures forall v: nat :: !Touches(base, i, n, v) ==> Page(v) != Page(At(base, i)) && !Touches(base, i + 1, n, v)
  {
    hide VirtualAddress.At, VirtualAddress.Page;
  }

  /** The unmapping loop keeps the invariant and the other pages, and on success leaves its range unmapped. */
  lemma {:induction false} UnmapRunKeeps(s: Vmm, base: nat, i: nat, n: nat)
    requires Inv(s)
    ensures var (u, ok) := UnmapRun(s, base, i, n);
      && Inv(u) && u.overwrites == s.overwrites
      && (forall v: nat :: !Touches(base, i, n, v) ==> Entry(u, v) == Entry(s, v))
      && (forall v: nat :: Entry(s, v) == Unused ==> Entry(u, v) == Unused)
      && (ok ==> forall j: nat :: i <= j < n ==> Entry(u, At(base, j)) == Unused)
    decreases n - i
  {
    hide Inv, Entry, UnmapPage, VirtualAddress.At, VirtualAddress.Page, Touches;
    if i < n {
      UnmapPageKeeps(s, At(base, i));
      var (u, ok) := UnmapPage(s, At(base, i));
      TouchesFirst(base, i, n);
      if ok {
        UnmapRunKeeps(u, base, i + 1, n);
        assert Entry(u, At(base, i)) == Unused;
      }
    }
  }

  /** Every page mapped before is translated as before, and on success the new range was free and is now mapped. */
  ghost predicate MapsBeside(s: Vmm, u: Vmm, r: Result<nat>, n: nat) {
    && (forall v: nat :: Translate(s, v).Some? ==> Translate(u, v) == Translate(s, v))
    && (r.Ok? ==> FreeAt(s, r.value, n) && forall j: nat :: j < n ==> Translate(u, At(r.value, j)).Some?)
  }

  lemma FreeUntouched(s: Vmm, base: nat, n: nat, v: nat)
    requires FreeAt(s, base, n) && Entry(s, v).Used?
    ensures !Touches(base, 0, n, v)
  {
    hide VirtualAddress.Page, VirtualAddress.At, Entry;
    forall j: nat | 0 <= j < n ensures Page(v) != Page(At(base, j)) {
      assert Translate(s, At(base, j)) == None;
      SamePage(s, v);
    }
  }

  lemma MapRunBeside(s: Vmm, base: nat, phys: Option<nat>, flags: nat, n: nat)
    requires Inv(s) && FreeAt(s, base, n)
    ensures var (u, ok) := MapRun(s, base, phys, flags, 0, n);
      MapsBeside(s, u, if ok then Ok(base) else Err(OutOfMemory), n)
  {
    hide Inv, Entry, MapRun, VirtualAddress.At, Touches, FreeAt;
    MapRunKeeps(s, base, phys, flags, 0, n);
    MapRunMaps(s, base, phys, flags, 0, n);
    var (u, ok) := MapRun(s, base, phys, flags, 0, n);
    forall v: nat | Translate(s, v).Some? ensures Translate(u, v) == Translate(s, v) {
      FreeUntouched(s, base, n, v);
    }
    forall j: nat | ok && j < n ensures Translate(u, At(base, j)).Some? {
      assert Entry(u, At(base, j)).Used?;
    }
  }

  /**
    `mmap` at address 0 takes the least free range, leaves every earlier translation unchanged even when memory
    runs out partway, and fails only for lack of memory.
   */
  lemma MmapAnywhere(s: Vmm, length: nat, prot: nat)
    requires Inv(s)
    ensures var (u, r) := Mmap(s, 0, length, prot);
      && Inv(u) && MapsBeside(s, u, r, PageCount(length))
      && (if r.Ok? then r == FindFree(s, PageCount(length)) else r.error == OutOfMemory)
  {
    hide Inv, MapRun, MapsBeside, FreeAt, FindFrom;
    var n := PageCount(length);
    FindFreeIsLeast(s, n);
    NothingMapped(s, n);
    if FindFree(s, n).Ok? {
      MapRunBeside(s, FindFree(s, n).value, None, prot, n);
      MapRunKeeps(s, FindFree(s, n).value, None, prot, 0, n);
    }
  }

  lemma NothingMapped(s: Vmm, n: nat)
    ensures MapsBeside(s, s, Err(OutOfMemory), n)
  {
  }

  /** `allocate_user_pages` maps its frames in order into the least free range, beside everything already mapped. */
  lemma AllocateUserPagesExact(s: Vmm, count: nat, flags: nat, frames: Option<nat>)
    requires Inv(s)
    ensures var (u, r) := AllocateUserPages(s, count, flags, frames);
      && Inv(u) && MapsBeside(s, u, r, count)
      && (if r.Ok? then frames.Some? && r == FindFree(s, count) else r.error == OutOfMemory)
      && (r.Ok? && count <= 0x10_0000_0000 ==>
            forall j: nat :: j < count ==> Entry(u, At(r.value, j)) == Used(At(frames.value, j), flags))
  {
    hide Inv, Entry, MapRun, MapsBeside, FreeAt, FindFrom, VirtualAddress.At, Touches;
    FindFreeIsLeast(s, count);
    NothingMapped(s, count);
    if frames.Some? && FindFree(s, count).Ok? {
      var base := FindFree(s, count).value;
      MapRunBeside(s, base, frames, flags, count);
      MapRunKeeps(s, base, frames, flags, 0, count);
      if MapRun(s, base, frames, flags, 0, count).1 && count <= 0x10_0000_0000 {
        forall j: nat | j < count
          ensures Entry(MapRun(s, base, frames, flags, 0, count).0, At(base, j)) == Used(At(frames.value, j), flags)
        {
          MapRunExact(s, base, frames.value, flags, 0, count, j);
        }
      }
    }
  }

  // ---------- `munmap` undoes `mmap`

  ghost predicate TableAt(s: Vmm, v: nat) {
    PT.Reach(ENTRY, s.tree, Path(v)[..3]).Some?
  }

  lemma UsedHasTable(s: Vmm, v: nat)
    requires Entry(s, v).Used?
    ensures TableAt(s, v)
  {
  }

  lemma UnmapKeepsTable(s: Vmm, virt: nat, v: nat)
    requires Inv(s) && TableAt(s, v)
    ensures TableAt(UnmapPage(s, virt).0, v)
  {
    hide VirtualAddress.Path, PT.Reach, UsedSlots, FreshSupply;
    var r := PT.Reach(ENTRY, s.tree, Path(virt)[..3]);
    if r.Some? {
      PT.ReachedIsOwned(ENTRY, s.tree, Path(virt)[..3]);
      PT.WriteReach(ENTRY, s.tree, r.value, Path(virt)[3], Unused, Path(v)[..3]);
    }
  }

  lemma UnmapOk(s: Vmm, virt: nat)
    ensures UnmapPage(s, virt).1 <==> TableAt(s, virt)
  {
  }

  lemma {:induction false} UnmapRunOk(s: Vmm, base: nat, i: nat, n: nat)
    requires Inv(s) && forall j: nat :: i <= j < n ==> TableAt(s, At(base, j))
    ensures UnmapRun(s, base, i, n).1
    decreases n - i
  {
    hide Inv, TableAt, UnmapPage, VirtualAddress.At;
    if i < n {
      UnmapOk(s, At(base, i));
      var u := UnmapPage(s, At(base, i)).0;
      UnmapPageKeeps(s, At(base, i));
      forall j: nat | i + 1 <= j < n ensures TableAt(u, At(base, j)) {
        UnmapKeepsTable(s, At(base, i), At(base, j));
      }
      UnmapRunOk(u, base, i + 1, n);
    }
  }

  /** Unmapping a range that was just mapped into free space succeeds and restores every translation. */
  lemma MunmapUndoesMmap(s: Vmm, length: nat, prot: nat)
    requires Inv(s) && Mmap(s, 0, length, prot).1.Ok?
    ensures var (u, r) := Mmap(s, 0, length, prot);
      var (w, q) := Munmap(u, r.value, length);
      && q == Ok(()) && Inv(w)
      && (forall v: nat :: Translate(w, v) == Translate(s, v))
  {
    hide Inv, Entry, MapRun, UnmapRun, FreeAt, FindFrom, VirtualAddress.At, Touches, TableAt;
    var n := PageCount(length);
    var (u, r) := Mmap(s, 0, length, prot);
    var base := r.value;
    MmapAnywhere(s, length, prot);
    MapRunKeeps(s, base, None, prot, 0, n);
    forall j: nat | 0 <= j < n ensures TableAt(u, At(base, j)) {
      assert Translate(u, At(base, j)).Some?;
      UsedHasTable(u, At(base, j));
    }
    UnmapRunOk(u, base, 0, n);
    UnmapRunKeeps(u, base, 0, n);
    var w := UnmapRun(u, base, 0, n).0;
    forall v: nat ensures Translate(w, v) == Translate(s, v) {
      if Touches(base, 0, n, v) {
        TouchedEntries(s, w, base, n, v);
      }
    }
  }

  lemma TouchedEntries(s: Vmm, w: Vmm, base: nat, n: nat, v: nat)
    requires Touches(base, 0, n, v) && FreeAt(s, base, n)
    requires forall j: nat :: 0 <= j < n ==> Entry(w, At(base, j)) == Unused
    ensures Entry(w, v) == Unused && Entry(s, v) == Unused
  {
    hide Entry, VirtualAddress.At, VirtualAddress.Page;
    var j: nat :| 0 <= j < n && Page(v) == Page(At(base, j));
    assert Translate(s, At(base, j)) == None;
    SamePage(s, At(base, j));
    SamePage(w, At(base, j));
  }

  // ---------- Every run

  datatype Op =
    | Map(virt: nat, phys: nat, flags: nat)
    | Unmap(virt: nat)
    | MmapAt(addr: nat, length: nat, prot: nat)
    | MunmapAt(addr: nat, length: nat)
    | AllocateUser(count: nat, flags: nat, frames: Option<nat>)

  ghost function Step(s: Vmm, op: Op): Vmm {
    match op
    case Map(virt, phys, flags) => MapPage(s, virt, phys, flags).0
    case Unmap(virt) => UnmapPage(s, virt).0
    case MmapAt(addr, length, prot) => Mmap(s, addr, length, prot).0
    case MunmapAt(addr, length) => Munmap(s, addr, length).0
    case AllocateUser(count, flags, frames) => AllocateUserPages(s, count, flags, frames).0
  }

  ghost function Run(s: Vmm, ops: seq<Op>): Vmm
    decreases |ops|
  {
    if ops == [] then s else Run(Step(s, ops[0]), ops[1..])
  }

  /** A new manager: an empty root table and no pages counted. */
  ghost function New(root: nat, supply: seq<Option<nat>>): Vmm {
    Vmm(PT.Start(ENTRY, root), 0, supply, 0)
  }

  lemma NewInv(root: nat, supply: seq<Option<nat>>)
    requires FreshSupply({root}, supply)
    ensures Inv(New(root, supply))
    ensures forall v: nat :: Translate(New(root, supply), v) == None
  {
    hide VirtualAddress.Path;
    PT.StartSound(ENTRY, root);
    var s := New(root, supply);
    assert s.tree.tables.Keys == {root};
    assert UsedSlots(s.tree) == {};
  }

  lemma StepInv(s: Vmm, op: Op)
    requires Inv(s)
    ensures Inv(Step(s, op))
  {
    hide Inv, Entry, MapPage, UnmapPage, MapRun, UnmapRun, FindFrom;
    match op
    case Map(virt, phys, flags) => MapPageKeeps(s, virt, phys, flags);
    case Unmap(virt) => UnmapPageKeeps(s, virt);
    case MmapAt(addr, length, prot) =>
      var base := if addr != 0 then Ok(addr) else FindFree(s, PageCount(length));
      if base.Ok? { MapRunKeeps(s, base.value, None, prot, 0, PageCount(length)); }
    case MunmapAt(addr, length) => UnmapRunKeeps(s, addr, 0, PageCount(length));
    case AllocateUser(count, flags, frames) => AllocateUserPagesExact(s, count, flags, frames);
  }

  lemma {:induction false} RunInv(s: Vmm, ops: seq<Op>)
    requires Inv(s)
    ensures Inv(Run(s, ops))
    decreases |ops|
  {
    hide Inv, Step;
    if ops != [] {
      StepInv(s, ops[0]);
      RunInv(Step(s, ops[0]), ops[1..]);
    }
  }

  /**
    Over every run, including operations stopped midway by a failed allocation, the page count is the number of
    used entries of all levels plus the number of used leaves that were mapped over, and so never negative.
   */
  lemma PageCountLaw(root: nat, supply: seq<Option<nat>>, ops: seq<Op>)
    requires FreshSupply({root}, supply)
    ensures var s := Run(New(root, supply), ops);
      s.pageCount == |UsedSlots(s.tree)| + s.overwrites && s.pageCount >= 0
  {
    hide Run, UsedSlots, FreshSupply, New;
    NewInv(root, supply);
    RunInv(New(root, supply), ops);
  }
}
