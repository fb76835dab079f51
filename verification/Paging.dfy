/**
  The kernel page tables as a value: what each operation of src/arch/paging.rs does to the tree in memory,
  and the flat map from page number to (frame, flags) that the tree stands for.
 */
module Paging {
  import opened Options
  import opened PageEntry
  import opened VirtualAddress
  import PT = PageTree

  /** A stored entry, and the address of a table. */
  datatype Entry = Entry(bits: bv64)
  datatype Ptr = Ptr(bits: bv64)

  type Space = PT.Tree<Ptr, Entry>

  function Next(e: Entry): Option<Ptr> {
    if Present(e.bits) then Some(Ptr(Addr(e.bits))) else None
  }

  function Link(e: Entry, b: Ptr): Entry {
    Entry(LinkEntry(e.bits, b.bits))
  }

  const ENTRY: PT.Format<Ptr, Entry> := PT.Format(Next, Link, Entry(0))

  ghost predicate Sound(t: Space) {
    PT.Sound(ENTRY, t)
  }

  /** The addresses the allocator would give to the tables that `map_page` may have to create. */
  datatype Boxes = Boxes(pdpt: Ptr, pd: Ptr, pt: Ptr)

  datatype Op =
    | Map(virt: nat, phys: bv64, flags: bv64, boxes: Boxes)
    | Unmap(virt: nat)
    | SetPageFlags(virt: nat, flags: bv64)
    | MarkAccessed(virt: nat)
    | MarkDirty(virt: nat)

  /** Fresh tables are usable, distinct, and not already in use. */
  ghost predicate Fresh(t: Space, b: Boxes) {
    && Usable(b.pdpt.bits) && Usable(b.pd.bits) && Usable(b.pt.bits)
    && b.pdpt != b.pd && b.pdpt != b.pt && b.pd != b.pt
    && b.pdpt !in t.tables && b.pd !in t.tables && b.pt !in t.tables
  }

  ghost predicate Allowed(t: Space, op: Op) {
    op.Map? ==> Fresh(t, op.boxes)
  }

  /** What an operation does to the leaf entry of its page. */
  function Apply(op: Op, e: Entry): Entry {
    match op
    case Map(_, phys, flags, _) => Entry(SetFlags(SetAddr(e.bits, phys), flags))
    case Unmap(_) => Entry(SetFlags(e.bits, 0))
    case SetPageFlags(_, flags) => if Present(e.bits) then Entry(SetFlags(e.bits, flags)) else e
    case MarkAccessed(_) => if Present(e.bits) then Entry(SetAccessed(e.bits, true)) else e
    case MarkDirty(_) => if Present(e.bits) then Entry(SetDirty(e.bits, true)) else e
  }

  lemma LinkFollows(e: Entry, b: Ptr)
    requires Usable(b.bits)
    ensures Next(Link(e, b)) == Some(b)
  {
    LinkReadsBack(e.bits, b.bits);
  }

  /** A tree and a table in it. */
  datatype Spot = Spot(space: Space, table: Ptr)

  predicate Slot(t: Space, a: Ptr, i: nat) {
    a in t.tables && a in t.owner && i < |t.tables[a]|
  }

  /** One level of `map_page`'s descent, with the table it arrives at. */
  ghost function Down(s: Spot, i: nat, b: Ptr): Spot {
    if Slot(s.space, s.table, i) then
      var u := PT.Ensure(ENTRY, s.space, s.table, i, b);
      match PT.Follow(ENTRY, u, Some(s.table), i)
      case Some(c) => Spot(u, c)
      case None => s
    else s
  }

  /** The descent of `map_page`: three levels, creating what is missing. */
  ghost function Descend(t: Space, virt: nat, b: Boxes): Spot {
    var p := Path(virt);
    Down(Down(Down(Spot(t, t.root), p[0], b.pdpt), p[1], b.pd), p[2], b.pt)
  }

  /** The table state after one operation. */
  ghost function Step(t: Space, op: Op): Space {
    var p := Path(op.virt);
    if op.Map? then
      var Spot(u, a) := Descend(t, op.virt, op.boxes);
      if Slot(u, a, p[3]) then PT.Write(u, a, p[3], Apply(op, u.tables[a][p[3]])) else u
    else
      match PT.Reach(ENTRY, t, p[..3])
      case None => t
      case Some(a) => if Slot(t, a, p[3]) then PT.Write(t, a, p[3], Apply(op, t.tables[a][p[3]])) else t
  }

  lemma DownKeeps(s: Spot, i: nat, b: Ptr)
    requires Sound(s.space) && Slot(s.space, s.table, i) && |s.space.owner[s.table]| < 3
    requires Usable(b.bits) && b !in s.space.tables
    ensures var t, r := s.space, Down(s, i, b);
      && Sound(r.space) && r.space.root == t.root && PT.SameLeaves(ENTRY, t, r.space)
      && r.space.tables.Keys <= t.tables.Keys + {b}
      && r.table in r.space.tables && r.table in r.space.owner
      && |r.space.tables[r.table]| == PT.FANOUT
      && r.space.owner[r.table] == t.owner[s.table] + [i]
  {
    hide PT.Reach, PT.Leaf, PageEntry.Usable, PageEntry.LinkEntry, PageEntry.Present, PageEntry.Addr;
    var t, a := s.space, s.table;
    PT.TableFacts(ENTRY, t, a);
    LinkFollows(t.tables[a][i], b);
    PT.EnsureKeeps(ENTRY, t, a, i, b);
    PT.TableFacts(ENTRY, Down(s, i, b).space, Down(s, i, b).table);
  }

  lemma DescendKeeps(t: Space, virt: nat, b: Boxes)
    requires Sound(t) && Fresh(t, b)
    ensures var r := Descend(t, virt, b);
      && Sound(r.space) && r.space.root == t.root && PT.SameLeaves(ENTRY, t, r.space)
      && r.table in r.space.tables && r.table in r.space.owner
      && |r.space.tables[r.table]| == PT.FANOUT
      && r.space.owner[r.table] == Path(virt)[..3]
  {
    hide Sound, Down, PT.SameLeaves, PageEntry.Usable, VirtualAddress.Path;
    var p := Path(virt);
    RootFacts(t);
    var s := Spot(t, t.root);
    var d := Down(s, p[0], b.pdpt);
    DownKeeps(s, p[0], b.pdpt);
    var e := Down(d, p[1], b.pd);
    DownKeeps(d, p[1], b.pd);
    DownKeeps(e, p[2], b.pt);
    PT.SameLeavesChain(ENTRY, t, d.space, e.space, Down(e, p[2], b.pt).space);
    assert p[..3] == [p[0], p[1], p[2]];
  }

  lemma RootFacts(t: Space)
    requires Sound(t)
    ensures t.root in t.tables && t.root in t.owner && |t.tables[t.root]| == PT.FANOUT && t.owner[t.root] == []
  {
    PT.TableFacts(ENTRY, t, t.root);
  }

  lemma ApplyEmpty(op: Op)
    requires !op.Map?
    ensures Apply(op, Entry(0)) == Entry(0)
  {
  }

  /** An operation keeps the tree alias-free and rewrites the leaf entry of its own page only. */
  lemma StepLeaf(t: Space, op: Op)
    requires Sound(t) && Allowed(t, op)
    ensures Sound(Step(t, op)) && Step(t, op).root == t.root
    ensures forall p :: |p| == 4 && PT.Indices(p) ==>
      PT.Leaf(ENTRY, Step(t, op), p) ==
      if p == Path(op.virt) then Apply(op, PT.Leaf(ENTRY, t, p)) else PT.Leaf(ENTRY, t, p)
  {
    hide Descend, VirtualAddress.Path, Apply, PT.Linked, PT.Rooted;
    var p := Path(op.virt);
    assert p == p[..3] + [p[3]];
    if op.Map? {
      DescendKeeps(t, op.virt, op.boxes);
      var Spot(u, a) := Descend(t, op.virt, op.boxes);
      PT.WriteLeaf(ENTRY, u, a, p[3], Apply(op, u.tables[a][p[3]]));
      LeafOf(u, p, a);
    } else if PT.Reach(ENTRY, t, p[..3]).Some? {
      PT.ReachedIsOwned(ENTRY, t, p[..3]);
      var a := PT.Reach(ENTRY, t, p[..3]).value;
      PT.WriteLeaf(ENTRY, t, a, p[3], Apply(op, t.tables[a][p[3]]));
      LeafOf(t, p, a);
    } else {
      ApplyEmpty(op);
    }
  }

  lemma LeafOf(t: Space, p: seq<nat>, a: Ptr)
    requires Sound(t) && |p| == 4 && PT.Indices(p) && a in t.tables && t.owner[a] == p[..3]
    ensures PT.Leaf(ENTRY, t, p) == t.tables[a][p[3]]
  {
    hide PT.Reach;
    PT.TableFacts(ENTRY, t, a);
  }

  // ---------- The upper entries

  predicate PlainEntry(e: Entry) {
    Plain(e.bits)
  }

  /** Every entry of the upper three levels is plain. */
  ghost predicate PlainUpper(t: Space) {
    PT.Shape(t) && PT.Upper(t, PlainEntry)
  }

  lemma PlainAt(t: Space, a: Ptr, i: nat)
    requires PlainUpper(t) && a in t.tables && |t.owner[a]| < 3 && i < |t.tables[a]|
    ensures Plain(t.tables[a][i].bits)
  {
    hide PageEntry.Plain;
    assert PlainEntry(t.tables[a][i]);
  }

  lemma PlainLinked(e: Entry, b: Ptr)
    requires PlainEntry(e) && Next(e) == None && Usable(b.bits)
    ensures PlainEntry(Link(e, b)) && PlainEntry(Entry(0))
  {
    hide PageEntry.Plain, PageEntry.LinkEntry, PageEntry.Usable, PageEntry.Present, PageEntry.Addr;
    PlainLink(e.bits, b.bits);
  }

  lemma DownPlain(s: Spot, i: nat, b: Ptr)
    requires Sound(s.space) && PlainUpper(s.space) && Slot(s.space, s.table, i) && |s.space.owner[s.table]| < 3
    requires Usable(b.bits) && b !in s.space.tables
    ensures PlainUpper(Down(s, i, b).space)
  {
    hide PT.Reach, PlainEntry, Link, PageEntry.Usable;
    if Next(s.space.tables[s.table][i]) == None {
      PlainLinked(s.space.tables[s.table][i], b);
      PT.EnsureUpper(ENTRY, s.space, s.table, i, b, PlainEntry);
    }
  }

  lemma DescendPlain(t: Space, virt: nat, b: Boxes)
    requires Sound(t) && PlainUpper(t) && Fresh(t, b)
    ensures PlainUpper(Descend(t, virt, b).space)
  {
    hide Sound, Down, PlainUpper, PT.SameLeaves, PageEntry.Usable, VirtualAddress.Path;
    var p := Path(virt);
    RootFacts(t);
    var s := Spot(t, t.root);
    DownKeeps(s, p[0], b.pdpt);
    DownPlain(s, p[0], b.pdpt);
    var d := Down(s, p[0], b.pdpt);
    DownKeeps(d, p[1], b.pd);
    DownPlain(d, p[1], b.pd);
    DownPlain(Down(d, p[1], b.pd), p[2], b.pt);
  }

  /** An operation leaves only plain entries in the upper tables. */
  lemma StepPlain(t: Space, op: Op)
    requires Sound(t) && PlainUpper(t) && Allowed(t, op)
    ensures PlainUpper(Step(t, op))
  {
    hide Descend, PlainEntry, Apply, VirtualAddress.Path, PT.Reach;
    var p := Path(op.virt);
    if op.Map? {
      DescendKeeps(t, op.virt, op.boxes);
      DescendPlain(t, op.virt, op.boxes);
      var Spot(u, a) := Descend(t, op.virt, op.boxes);
      PT.WriteUpper(ENTRY, u, a, p[3], Apply(op, u.tables[a][p[3]]), PlainEntry);
    } else if PT.Reach(ENTRY, t, p[..3]).Some? {
      PT.ReachedIsOwned(ENTRY, t, p[..3]);
      var a := PT.Reach(ENTRY, t, p[..3]).value;
      PT.WriteUpper(ENTRY, t, a, p[3], Apply(op, t.tables[a][p[3]]), PlainEntry);
    }
  }
}
