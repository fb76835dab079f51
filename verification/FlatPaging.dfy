/** The flat meaning of the kernel page tables, and its agreement with the tree over every run. */
module FlatPaging {
  import opened Options
  import opened PageEntry
  import opened VirtualAddress
  import opened Paging
  import PT = PageTree

  datatype Mapping = Mapping(frame: bv64, flags: bv64)
  type Flat = map<nat, Mapping>

  function Get(m: Flat, k: nat): Option<Mapping> {
    if k in m then Some(m[k]) else None
  }

  function Put(m: Flat, k: nat, x: Option<Mapping>): Flat {
    match x
    case None => m - {k}
    case Some(v) => m[k := v]
  }

  /** The effect of an operation on one page of the flat map. */
  function Effect(op: Op, x: Option<Mapping>): Option<Mapping> {
    match op
    case Map(_, phys, flags, _) =>
      if Present(flags) then Some(Mapping(Frame(phys), Flags(flags))) else None
    case Unmap(_) => None
    case SetPageFlags(_, flags) =>
      if x.Some? && Present(flags) then Some(Mapping(x.value.frame, Flags(flags))) else None
    case MarkAccessed(_) => if x.Some? then Some(Mapping(x.value.frame, Raise(x.value.flags, 32))) else None
    case MarkDirty(_) => if x.Some? then Some(Mapping(x.value.frame, Raise(x.value.flags, 64))) else None
  }

  function FlatStep(m: Flat, op: Op): Flat {
    Put(m, Page(op.virt), Effect(op, Get(m, Page(op.virt))))
  }

  function FlatTranslate(m: Flat, virt: nat): Option<bv64> {
    if Page(virt) in m then Some(Join(m[Page(virt)].frame, virt)) else None
  }

  function FlatFlags(m: Flat, virt: nat): Option<bv64> {
    if Page(virt) in m then Some(m[Page(virt)].flags) else None
  }

  /** What a leaf entry says about its page. */
  function Decode(e: Entry): Option<Mapping> {
    if Present(e.bits) then Some(Mapping(Frame(e.bits), Flags(e.bits))) else None
  }

  /** `translate_virt_to_phys` and `get_page_flags` on a tree. */
  ghost function Translate(t: Space, virt: nat): Option<bv64> {
    var e := PT.Leaf(ENTRY, t, Path(virt)).bits;
    if Present(e) then Some(Join(Frame(e), virt)) else None
  }

  ghost function PageFlags(t: Space, virt: nat): Option<bv64> {
    var e := PT.Leaf(ENTRY, t, Path(virt)).bits;
    if Present(e) then Some(Flags(e)) else None
  }

  /** The tree and the flat map say the same about every address. */
  ghost predicate Agrees(t: Space, m: Flat) {
    forall v: nat :: Decode(PT.Leaf(ENTRY, t, Path(v))) == Get(m, Page(v))
  }

  lemma FrameBits(e: bv64)
    ensures Frame(e) == e & 0x0000_FFFF_FFFF_F000
  {
  }

  lemma FrameOfSetFlags(e: bv64, flags: bv64)
    ensures Frame(SetFlags(e, flags)) == Frame(e)
  {
    hide PageEntry.Frame;
    FrameBits(e);
    FrameBits(SetFlags(e, flags));
  }

  lemma SetAddrBits(e: bv64, phys: bv64)
    ensures SetAddr(e, phys) & 0x0000_FFFF_FFFF_F000 == phys & 0x0000_FFFF_FFFF_F000
  {
  }

  lemma FrameOfSetAddr(e: bv64, phys: bv64)
    ensures Frame(SetAddr(e, phys)) == Frame(phys)
  {
    hide PageEntry.Frame, PageEntry.SetAddr;
    SetAddrBits(e, phys);
    FrameBits(phys);
    FrameBits(SetAddr(e, phys));
  }

  lemma FrameOfMarks(e: bv64)
    ensures Frame(SetAccessed(e, true)) == Frame(e) && Frame(SetDirty(e, true)) == Frame(e)
  {
    hide PageEntry.Frame;
    FrameBits(e);
    FrameBits(SetAccessed(e, true));
    FrameBits(SetDirty(e, true));
  }

  lemma FlagsOfSetFlags(e: bv64, flags: bv64)
    ensures Present(SetFlags(e, flags)) <==> Present(flags)
    ensures Flags(SetFlags(e, flags)) == Flags(flags)
    ensures !Present(0)
  {
  }

  lemma FlagsOfAccessed(e: bv64)
    ensures Present(SetAccessed(e, true)) <==> Present(e)
    ensures Flags(SetAccessed(e, true)) == Raise(Flags(e), 32)
  {
  }

  lemma FlagsOfDirty(e: bv64)
    ensures Present(SetDirty(e, true)) <==> Present(e)
    ensures Flags(SetDirty(e, true)) == Raise(Flags(e), 64)
  {
  }

  /** The bit-level update of an entry has the flat effect. */
  lemma DecodeApply(op: Op, e: Entry)
    ensures Decode(Apply(op, e)) == Effect(op, Decode(e))
  {
    hide PageEntry.Raise, PageEntry.Frame, PageEntry.Addr, PageEntry.Flags, PageEntry.SetFlags, PageEntry.SetAddr,
        PageEntry.SetAccessed, PageEntry.SetDirty, PageEntry.Present;
    match op
    case Map(_, phys, flags, _) =>
      FrameOfSetAddr(e.bits, phys);
      FrameOfSetFlags(SetAddr(e.bits, phys), flags);
      FlagsOfSetFlags(SetAddr(e.bits, phys), flags);
    case Unmap(_) =>
      FlagsOfSetFlags(e.bits, 0);
    case SetPageFlags(_, flags) =>
      FrameOfSetFlags(e.bits, flags);
      FlagsOfSetFlags(e.bits, flags);
    case MarkAccessed(_) =>
      FrameOfMarks(e.bits);
      FlagsOfAccessed(e.bits);
    case MarkDirty(_) =>
      FrameOfMarks(e.bits);
      FlagsOfDirty(e.bits);
  }

  /** One step keeps the agreement. */
  lemma StepAgrees(t: Space, m: Flat, op: Op)
    requires Sound(t) && Allowed(t, op) && Agrees(t, m)
    ensures Sound(Step(t, op)) && Agrees(Step(t, op), FlatStep(m, op))
  {
    hide PT.Leaf, Step, Apply, Effect, Decode, VirtualAddress.Page, VirtualAddress.Path, Sound;
    StepLeaf(t, op);
    forall v: nat ensures Decode(PT.Leaf(ENTRY, Step(t, op), Path(v))) == Get(FlatStep(m, op), Page(v)) {
      PathIsPage(v, op.virt);
      DecodeApply(op, PT.Leaf(ENTRY, t, Path(v)));
    }
  }

  /** The tree after a run of operations, oldest first. */
  ghost function Run(t: Space, ops: seq<Op>): Space
    decreases |ops|
  {
    if ops == [] then t else Step(Run(t, ops[..|ops| - 1]), ops[|ops| - 1])
  }

  ghost predicate Permitted(t: Space, ops: seq<Op>)
    decreases |ops|
  {
    ops == [] || (Permitted(t, ops[..|ops| - 1]) && Allowed(Run(t, ops[..|ops| - 1]), ops[|ops| - 1]))
  }

  function FlatRun(m: Flat, ops: seq<Op>): Flat
    decreases |ops|
  {
    if ops == [] then m else FlatStep(FlatRun(m, ops[..|ops| - 1]), ops[|ops| - 1])
  }

  lemma {:induction false} RunAgrees(t: Space, m: Flat, ops: seq<Op>)
    requires Sound(t) && Agrees(t, m) && Permitted(t, ops)
    ensures Sound(Run(t, ops)) && Agrees(Run(t, ops), FlatRun(m, ops))
    decreases |ops|
  {
    hide Sound, Agrees, Allowed, Step, FlatStep;
    if ops != [] {
      RunAgrees(t, m, ops[..|ops| - 1]);
      StepAgrees(Run(t, ops[..|ops| - 1]), FlatRun(m, ops[..|ops| - 1]), ops[|ops| - 1]);
    }
  }

  /** Remapping a page leaves the same flat map as mapping it over the old mapping. */
  lemma RemapIsMap(m: Flat, virt: nat, phys: bv64, flags: bv64, boxes: Boxes)
    ensures FlatRun(m, [Unmap(virt), Map(virt, phys, flags, boxes)]) == FlatStep(m, Map(virt, phys, flags, boxes))
  {
    hide PageEntry.Present, PageEntry.Frame, PageEntry.Flags, VirtualAddress.Page;
    var u, w := Unmap(virt), Map(virt, phys, flags, boxes);
    assert [u, w][..1] == [u] && [u][..0] == [];
    assert FlatRun(m, [u]) == FlatStep(m, u);
  }

  lemma AgreesReads(t: Space, m: Flat, virt: nat)
    requires Agrees(t, m)
    ensures Translate(t, virt) == FlatTranslate(m, virt)
    ensures PageFlags(t, virt) == FlatFlags(m, virt)
  {
    hide PT.Leaf, VirtualAddress.Path, VirtualAddress.Page, PageEntry.Frame, PageEntry.Join, PageEntry.Flags,
        PageEntry.Present;
    assert Decode(PT.Leaf(ENTRY, t, Path(virt))) == Get(m, Page(virt));
  }

  ghost function EmptySpace(root: Ptr): Space {
    PT.Start(ENTRY, root)
  }

  lemma EmptyAgrees(root: Ptr)
    ensures Sound(EmptySpace(root)) && Agrees(EmptySpace(root), map[])
  {
    hide VirtualAddress.Path;
    PT.StartSound(ENTRY, root);
    assert Decode(Entry(0)) == None;
  }

  /** Over every run from an empty root table, translation and flags read at any address are those of the flat map. */
  lemma RunRefinesFlat(root: Ptr, ops: seq<Op>, virt: nat)
    requires Permitted(EmptySpace(root), ops)
    ensures Translate(Run(EmptySpace(root), ops), virt) == FlatTranslate(FlatRun(map[], ops), virt)
    ensures PageFlags(Run(EmptySpace(root), ops), virt) == FlatFlags(FlatRun(map[], ops), virt)
  {
    hide *;
    EmptyAgrees(root);
    RunAgrees(EmptySpace(root), map[], ops);
    AgreesReads(Run(EmptySpace(root), ops), FlatRun(map[], ops), virt);
  }

  /**
    Over every run, each table has exactly one index path, and each present upper entry leads to the table at its own
    path.
   */
  lemma RunAliasFree(root: Ptr, ops: seq<Op>, a: Ptr)
    requires Permitted(EmptySpace(root), ops)
    requires a in Run(EmptySpace(root), ops).tables
    ensures var t := Run(EmptySpace(root), ops);
      && a in t.owner && |t.tables[a]| == PT.FANOUT
      && (exists p :: |p| <= 3 && PT.Reach(ENTRY, t, p) == Some(a))
      && (forall p, q ::
            |p| <= 3 && |q| <= 3 && PT.Reach(ENTRY, t, p) == Some(a) && PT.Reach(ENTRY, t, q) == Some(a) ==> p == q)
      && (forall i :: |t.owner[a]| < 3 && 0 <= i < PT.FANOUT && Present(t.tables[a][i].bits) ==>
           && PT.Reach(ENTRY, t, t.owner[a] + [i]) == Some(Ptr(Addr(t.tables[a][i].bits)))
           && Ptr(Addr(t.tables[a][i].bits)) in t.tables)
  {
    hide Run, PT.Reach, Permitted, EmptySpace, PageEntry.Addr, PageEntry.Present;
    var t := Run(EmptySpace(root), ops);
    EmptyAgrees(root);
    RunAgrees(EmptySpace(root), map[], ops);
    PT.AliasFree(ENTRY, t, a);
    PT.TableFacts(ENTRY, t, a);
    forall i | |t.owner[a]| < 3 && 0 <= i < PT.FANOUT && Present(t.tables[a][i].bits)
      ensures PT.Reach(ENTRY, t, t.owner[a] + [i]) == Some(Ptr(Addr(t.tables[a][i].bits)))
      ensures Ptr(Addr(t.tables[a][i].bits)) in t.tables
    {
      PT.ReachSnoc(ENTRY, t, t.owner[a], i);
    }
  }

  lemma {:induction false} RunPlain(t: Space, m: Flat, ops: seq<Op>)
    requires Sound(t) && Agrees(t, m) && PlainUpper(t) && Permitted(t, ops)
    ensures PlainUpper(Run(t, ops))
    decreases |ops|
  {
    hide Sound, Agrees, Allowed, Step, FlatStep, PlainUpper;
    if ops != [] {
      var prefix := ops[..|ops| - 1];
      RunPlain(t, m, prefix);
      RunAgrees(t, m, prefix);
      StepPlain(Run(t, prefix), ops[|ops| - 1]);
    }
  }

  /**
    Over every run, each entry of an upper table is empty or the address of a table of the tree with exactly the
    present and writable bits.
   */
  lemma RunUpperEntries(root: Ptr, ops: seq<Op>, a: Ptr, i: nat)
    requires Permitted(EmptySpace(root), ops)
    requires var t := Run(EmptySpace(root), ops); Slot(t, a, i) && |t.owner[a]| < 3
    ensures var t := Run(EmptySpace(root), ops);
      var e := t.tables[a][i].bits;
      e == 0 || (e == Addr(e) | 3 && Ptr(Addr(e)) in t.tables)
  {
    hide *;
    EmptyAgrees(root);
    EmptyPlain(root);
    RunPlain(EmptySpace(root), map[], ops);
    var t := Run(EmptySpace(root), ops);
    SlotFacts(t, a, i);
    PlainAt(t, a, i);
    PlainPresent(t.tables[a][i].bits);
    RunAliasFree(root, ops, a);
  }

  lemma SlotFacts(t: Space, a: Ptr, i: nat)
    requires Slot(t, a, i)
    ensures a in t.tables && a in t.owner && i < |t.tables[a]|
  {
  }

  lemma EmptyPlain(root: Ptr)
    ensures PlainUpper(EmptySpace(root))
  {
    PT.StartSound(ENTRY, root);
  }
}
