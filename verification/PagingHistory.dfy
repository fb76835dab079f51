/**
  What the kernel page tables of src/arch/paging.rs answer after any run, said of the calls that were made: which call
  put the frame behind an address, and which calls gave it its flags.
 */
module PagingHistory {
  import opened Options
  import opened PageEntry
  import opened PageOffset
  import opened VirtualAddress
  import opened Paging
  import opened FlatPaging

  /** Two addresses of one page: bits 12 to 47 agree. */
  predicate OnePage(v: nat, w: nat) {
    v / 4096 % 0x10_0000_0000 == w / 4096 % 0x10_0000_0000
  }

  /** Call `k` is about the page of `virt`. */
  predicate About(ops: seq<Op>, virt: nat, k: nat) {
    k < |ops| && OnePage(ops[k].virt, virt)
  }

  /** The call leaves a mapped page mapped to its frame. */
  predicate Spares(op: Op) {
    match op
    case Map(_, _, _, _) => false
    case Unmap(_) => false
    case SetPageFlags(_, flags) => flags & 1 == 1
    case MarkAccessed(_) => true
    case MarkDirty(_) => true
  }

  /** Call `k` mapped the page as present, and the mapping was spared since. */
  ghost predicate LiveMap(ops: seq<Op>, virt: nat, k: nat) {
    && About(ops, virt, k) && ops[k].Map? && ops[k].flags & 1 == 1
    && forall j: nat :: k < j && About(ops, virt, j) ==> Spares(ops[j])
  }

  /** Call `i` is the last that gave the page flags. */
  ghost predicate FlagSource(ops: seq<Op>, virt: nat, i: nat) {
    && About(ops, virt, i) && (ops[i].Map? || ops[i].SetPageFlags?)
    && forall j: nat :: i < j && About(ops, virt, j) ==> ops[j].MarkAccessed? || ops[j].MarkDirty?
  }

  function FlagsOf(op: Op): bv64
    requires op.Map? || op.SetPageFlags?
  {
    op.flags
  }

  ghost predicate AccessedSince(ops: seq<Op>, virt: nat, i: nat) {
    exists j: nat :: i < j && About(ops, virt, j) && ops[j].MarkAccessed?
  }

  ghost predicate DirtySince(ops: seq<Op>, virt: nat, i: nat) {
    exists j: nat :: i < j && About(ops, virt, j) && ops[j].MarkDirty?
  }

  // ---------- The last call

  lemma AboutPrefix(ops: seq<Op>, virt: nat, j: nat)
    requires ops != []
    ensures var prefix := ops[..|ops| - 1];
      && (About(prefix, virt, j) <==> About(ops, virt, j) && j < |ops| - 1)
      && (j < |ops| - 1 ==> prefix[j] == ops[j])
  {
  }

  lemma LastStep(ops: seq<Op>, virt: nat)
    requires ops != []
    ensures var op, m := ops[|ops| - 1], FlatRun(map[], ops[..|ops| - 1]);
      Get(FlatRun(map[], ops), Page(virt)) ==
      if OnePage(op.virt, virt) then Effect(op, Get(m, Page(virt))) else Get(m, Page(virt))
  {
    hide Effect;
  }

  lemma PresentBit(flags: bv64)
    ensures Present(flags) <==> flags & 1 == 1
  {
  }

  lemma LivePrefix(ops: seq<Op>, virt: nat, k: nat)
    requires ops != []
    ensures var last := |ops| - 1;
      LiveMap(ops, virt, k) <==>
        if k == last then About(ops, virt, k) && ops[k].Map? && ops[k].flags & 1 == 1
        else LiveMap(ops[..last], virt, k) && (About(ops, virt, last) ==> Spares(ops[last]))
  {
    hide Spares, OnePage;
    var prefix, last := ops[..|ops| - 1], |ops| - 1;
    assert forall j: nat :: About(prefix, virt, j) <==> About(ops, virt, j) && j < last;
    if LiveMap(ops, virt, k) && k < last {
      forall j: nat | k < j && About(prefix, virt, j) ensures Spares(prefix[j]) {
        assert About(ops, virt, j);
      }
    }
    if k < last && LiveMap(prefix, virt, k) && (About(ops, virt, last) ==> Spares(ops[last])) {
      forall j: nat | k < j && About(ops, virt, j) ensures Spares(ops[j]) {
        assert j < last ==> About(prefix, virt, j);
      }
    }
  }

  // ---------- The frame

  /** The page is mapped exactly when some call is its live map, and to the frame of that call. */
  lemma {:induction false} FrameOfLive(ops: seq<Op>, virt: nat)
    ensures Get(FlatRun(map[], ops), Page(virt)).Some? <==> exists k: nat :: LiveMap(ops, virt, k)
    ensures forall k: nat :: LiveMap(ops, virt, k) ==>
      Get(FlatRun(map[], ops), Page(virt)).Some?
      && Get(FlatRun(map[], ops), Page(virt)).value.frame == Frame(ops[k].phys)
    decreases |ops|
  {
    hide LiveMap, FlatRun, PageEntry.Frame, PageEntry.Flags, PageEntry.Present, PageEntry.Raise, VirtualAddress.Page,
        OnePage;
    if ops == [] {
      NothingLive(virt);
    } else {
      var prefix, last := ops[..|ops| - 1], |ops| - 1;
      FrameOfLive(prefix, virt);
      LastStep(ops, virt);
      if ops[last].Map? || ops[last].SetPageFlags? { PresentBit(ops[last].flags); }
      forall k: nat ensures LiveMap(ops, virt, k) <==>
        if k == last then About(ops, virt, k) && ops[k].Map? && ops[k].flags & 1 == 1
        else LiveMap(prefix, virt, k) && (About(ops, virt, last) ==> Spares(ops[last]))
      {
        LivePrefix(ops, virt, k);
      }
      LiveBound(prefix, virt);
    }
  }

  lemma NothingLive(virt: nat)
    ensures FlatRun(map[], []) == map[] && forall k: nat :: !LiveMap([], virt, k)
  {
  }

  lemma LiveBound(ops: seq<Op>, virt: nat)
    ensures forall k: nat :: LiveMap(ops, virt, k) ==> k < |ops| && ops[k].Map?
  {
  }

  /** The low twelve bits are the offset of the address, as a number, and the others bits 12 to 47 of `phys`. */
  predicate Parts(r: bv64, virt: nat, phys: bv64) {
    && (((r >> 6) & 63) as bv6) as nat * 64 + ((r & 63) as bv6) as nat == virt % 4096
    && r & !0xFFF == phys & 0x0000_FFFF_FFFF_F000
  }

  lemma FrameAligned(phys: bv64)
    ensures Frame(phys) == phys & 0x0000_FFFF_FFFF_F000 && Frame(phys) & 0xFFF == 0
  {
  }

  lemma FlatParts(m: Flat, virt: nat, phys: bv64)
    requires Page(virt) in m && m[Page(virt)].frame == Frame(phys)
    ensures FlatTranslate(m, virt).Some? && Parts(FlatTranslate(m, virt).value, virt, phys)
  {
    hide VirtualAddress.Page, PageOffset.Offset, PageEntry.Frame;
    FrameAligned(phys);
    JoinParts(m[Page(virt)].frame, virt);
  }

  /**
    After any run an address translates exactly when some call mapped its page and the mapping was spared since. The
    low twelve bits of the answer are then the offset of the address, as a number, and the others are bits 12 to 47 of
    the physical address given in that call.
   */
  lemma RunTranslates(root: Ptr, ops: seq<Op>, virt: nat)
    requires Permitted(EmptySpace(root), ops)
    ensures Translate(Run(EmptySpace(root), ops), virt).Some? <==> exists k: nat :: LiveMap(ops, virt, k)
    ensures forall k: nat :: LiveMap(ops, virt, k) ==>
      && k < |ops| && ops[k].Map? && Translate(Run(EmptySpace(root), ops), virt).Some?
      && Parts(Translate(Run(EmptySpace(root), ops), virt).value, virt, ops[k].phys)
  {
    hide LiveMap, FlatRun, Run, Permitted, Translate, PageEntry.Frame, PageEntry.Join, VirtualAddress.Page, Parts;
    RunRefinesFlat(root, ops, virt);
    FrameOfLive(ops, virt);
    LiveBound(ops, virt);
    forall k: nat | LiveMap(ops, virt, k)
      ensures FlatTranslate(FlatRun(map[], ops), virt).Some?
      ensures Parts(FlatTranslate(FlatRun(map[], ops), virt).value, virt, ops[k].phys)
    {
      FlatParts(FlatRun(map[], ops), virt, ops[k].phys);
    }
  }

  // ---------- The flags

  lemma MarksSplit(ops: seq<Op>, virt: nat, i: nat)
    requires ops != [] && i < |ops| - 1
    ensures var prefix, last := ops[..|ops| - 1], |ops| - 1;
      && (FlagSource(ops, virt, i) ==> FlagSource(prefix, virt, i))
      && (FlagSource(ops, virt, i) && About(ops, virt, last) ==> ops[last].MarkAccessed? || ops[last].MarkDirty?)
      && (AccessedSince(ops, virt, i) <==>
           AccessedSince(prefix, virt, i) || (About(ops, virt, last) && ops[last].MarkAccessed?))
      && (DirtySince(ops, virt, i) <==>
           DirtySince(prefix, virt, i) || (About(ops, virt, last) && ops[last].MarkDirty?))
  {
    hide OnePage;
    var prefix, last := ops[..|ops| - 1], |ops| - 1;
    assert forall j: nat :: About(prefix, virt, j) <==> About(ops, virt, j) && j < last;
    if FlagSource(ops, virt, i) {
      forall j: nat | i < j && About(prefix, virt, j) ensures prefix[j].MarkAccessed? || prefix[j].MarkDirty? {
        assert About(ops, virt, j);
      }
    }
    if AccessedSince(prefix, virt, i) {
      var j: nat :| i < j && About(prefix, virt, j) && prefix[j].MarkAccessed?;
      assert About(ops, virt, j);
    }
    if DirtySince(prefix, virt, i) {
      var j: nat :| i < j && About(prefix, virt, j) && prefix[j].MarkDirty?;
      assert About(ops, virt, j);
    }
  }

  lemma NoMarks(ops: seq<Op>, virt: nat)
    requires ops != []
    ensures !AccessedSince(ops, virt, |ops| - 1) && !DirtySince(ops, virt, |ops| - 1)
  {
  }

  /** The low twelve bits of the flags, with bit 5 raised if accessed and bit 6 if dirty. */
  function Marked(flags: bv64, accessed: bool, dirty: bool): bv64 {
    if accessed && dirty then (flags & 0xFFF) | 96
    else if accessed then (flags & 0xFFF) | 32
    else if dirty then (flags & 0xFFF) | 64
    else flags & 0xFFF
  }

  /** The flags that the calls since call `i` make of those it gave. */
  ghost function FlagsSince(ops: seq<Op>, virt: nat, i: nat): bv64
    requires i < |ops| && (ops[i].Map? || ops[i].SetPageFlags?)
  {
    Marked(FlagsOf(ops[i]), AccessedSince(ops, virt, i), DirtySince(ops, virt, i))
  }

  lemma MarkAgain(flags: bv64, dirty: bool)
    ensures Raise(Marked(flags, true, dirty), 32) == Marked(flags, true, dirty)
    ensures Raise(Marked(flags, dirty, true), 64) == Marked(flags, dirty, true)
  {
  }

  lemma MarkFirst(flags: bv64, other: bool)
    ensures Raise(Marked(flags, false, other), 32) == Marked(flags, true, other)
    ensures Raise(Marked(flags, other, false), 64) == Marked(flags, other, true)
    ensures Flags(flags) == Marked(flags, false, false)
  {
  }

  lemma MarkSteps(flags: bv64, a: bool, d: bool)
    ensures Raise(Marked(flags, a, d), 32) == Marked(flags, true, d)
    ensures Raise(Marked(flags, a, d), 64) == Marked(flags, a, true)
    ensures Flags(flags) == Marked(flags, false, false)
  {
    hide *;
    MarkFirst(flags, a);
    MarkFirst(flags, d);
    MarkAgain(flags, a);
    MarkAgain(flags, d);
  }

  /** The flags of a mapped page are those of the call that last gave flags, with the marks made since. */
  lemma {:induction false} FlagsOfSource(ops: seq<Op>, virt: nat, i: nat)
    requires FlagSource(ops, virt, i) && Get(FlatRun(map[], ops), Page(virt)).Some?
    ensures Get(FlatRun(map[], ops), Page(virt)).value.flags == FlagsSince(ops, virt, i)
    decreases |ops|
  {
    hide FlatRun, PageEntry.Frame, PageEntry.Flags, PageEntry.Present, PageEntry.Raise, VirtualAddress.Page, OnePage,
      AccessedSince, DirtySince, Marked;
    var prefix, last := ops[..|ops| - 1], |ops| - 1;
    LastStep(ops, virt);
    if i == last {
      NoMarks(ops, virt);
      MarkSteps(FlagsOf(ops[i]), false, false);
    } else {
      MarksSplit(ops, virt, i);
      FlagsOfSource(prefix, virt, i);
      MarkSteps(FlagsOf(ops[i]), AccessedSince(prefix, virt, i), DirtySince(prefix, virt, i));
    }
  }

  /**
    After any run the flags read for an address of a mapped page are the low twelve bits of the flags that the last
    `map_page` or `set_page_flags` on the page gave, with bits 5 and 6 raised if it was marked since.
   */
  lemma RunFlags(root: Ptr, ops: seq<Op>, virt: nat)
    requires Permitted(EmptySpace(root), ops)
    ensures PageFlags(Run(EmptySpace(root), ops), virt).Some? <==> exists k: nat :: LiveMap(ops, virt, k)
    ensures forall i: nat :: FlagSource(ops, virt, i) && PageFlags(Run(EmptySpace(root), ops), virt).Some? ==>
      PageFlags(Run(EmptySpace(root), ops), virt).value == FlagsSince(ops, virt, i)
  {
    hide LiveMap, FlagsSince, FlatRun, Run, Permitted, PageFlags, VirtualAddress.Page, OnePage;
    RunRefinesFlat(root, ops, virt);
    FrameOfLive(ops, virt);
    forall i: nat | FlagSource(ops, virt, i) && PageFlags(Run(EmptySpace(root), ops), virt).Some?
      ensures PageFlags(Run(EmptySpace(root), ops), virt).value == FlagsSince(ops, virt, i)
    {
      FlagsOfSource(ops, virt, i);
    }
  }

  /** A mapped page has a call that last gave it flags. */
  lemma SourceExists(ops: seq<Op>, virt: nat, k: nat) returns (i: nat)
    requires LiveMap(ops, virt, k)
    ensures k <= i && FlagSource(ops, virt, i)
  {
    i := k;
    var j := k + 1;
    while j < |ops|
      invariant k <= i < j <= |ops| && About(ops, virt, i) && (ops[i].Map? || ops[i].SetPageFlags?)
      invariant forall l: nat :: i < l < j && About(ops, virt, l) ==> ops[l].MarkAccessed? || ops[l].MarkDirty?
    {
      assert About(ops, virt, j) ==> Spares(ops[j]);
      if About(ops, virt, j) && ops[j].SetPageFlags? {
        i := j;
      }
      j := j + 1;
    }
  }
}
