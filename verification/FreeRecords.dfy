/**
  The free lists of src/memory/heap.rs as they lie in memory: the record of a free block is stored at the block's own
  address, so writing one record can destroy another.
 */
module FreeRecords {
  import opened Options
  import opened FreeLists

  /** The record of a free block; it takes 24 bytes. */
  datatype Record = Record(next: Option<nat>, size: nat)

  /** The records that memory holds, by address. */
  type Memory = map<nat, Record>

  /** The records at two addresses share a byte. */
  predicate Meets(a: nat, b: nat) {
    a < b + 24 && b < a + 24
  }

  /** What a record reads as; bytes that hold no record read as zero. */
  function Read(m: Memory, a: nat): Record {
    if a in m then m[a] else Record(None, 0)
  }

  /** Writes a record, which destroys the records it meets. */
  function Put(m: Memory, a: nat, r: Record): Memory {
    (map k | k in m && !Meets(k, a) :: m[k])[a := r]
  }

  /** The list heads and the memory that holds the records. */
  datatype Store = Store(memory: Memory, heads: seq<Option<nat>>)

  // ---------- Operations on memory

  /** `insert`. */
  function InsertRecord(s: Store, addr: nat, size: nat): Store {
    match ListIndex(size)
    case None => s
    case Some(i) =>
      if i < |s.heads|
      then Store(Put(s.memory, addr, Record(s.heads[i], size)), s.heads[i := Some(addr)])
      else s
  }

  /** How a walk along a list ends: at a block that fits, at the end, or never. */
  datatype Found = Hit(prev: Option<nat>, at: nat) | Miss | Loops

  /** The inner loop of `remove_best_fit`; `fuel` is the number of records it may still visit. */
  function Walk(m: Memory, prev: Option<nat>, cur: Option<nat>, size: nat, align: nat, fuel: nat): Found
    requires align > 0
    decreases fuel
  {
    match cur
    case None => Miss
    case Some(a) =>
      if fuel == 0 then Loops
      else if Fits(Block(a, Read(m, a).size), size, align) then Hit(prev, a)
      else Walk(m, cur, Read(m, a).next, size, align, fuel - 1)
  }

  /** A walk that visits more records than there are has come round and never ends. */
  function WalkList(s: Store, i: nat, size: nat, align: nat): Found
    requires align > 0 && i < |s.heads|
  {
    Walk(s.memory, None, s.heads[i], size, align, |s.memory| + 1)
  }

  /** The list in which the search from list `i` on ends, and how. */
  datatype Sought = Sought(list: nat, found: Found)

  function Seek(s: Store, size: nat, align: nat, i: nat): Sought
    requires align > 0
    decreases |s.heads| - i
  {
    if i >= |s.heads| then Sought(i, Miss)
    else
      match WalkList(s, i, size, align)
      case Miss => Seek(s, size, align, i + 1)
      case found => Sought(i, found)
  }

  /** Takes the record at `a` out of list `i`. */
  function Detach(s: Store, i: nat, prev: Option<nat>, a: nat): Store {
    var r := Read(s.memory, a);
    var m := Put(s.memory, a, Record(None, r.size));
    match prev
    case Some(p) => Store(Put(m, p, Record(r.next, Read(m, p).size)), s.heads)
    case None => if i < |s.heads| then Store(m, s.heads[i := r.next]) else Store(m, s.heads)
  }

  datatype Reply = Hung | Nothing | Got(block: Block)

  /** `remove_best_fit`. */
  function TakeFit(s: Store, size: nat, align: nat): (Store, Reply)
    requires align > 0
  {
    var Sought(i, found) := Seek(s, size, align, StartList(size));
    match found
    case Miss => (s, Nothing)
    case Loops => (s, Hung)
    case Hit(prev, a) =>
      var b := Block(a, Read(s.memory, a).size);
      var t := Detach(s, i, prev, a);
      if b.size > size + 32 then (InsertRecord(t, a + 24 * size, b.size - size), Got(b)) else (t, Got(b))
  }

  // ---------- What memory holds

  /** The address stored in the record of block `k`. */
  function NextOf(list: seq<Block>, k: nat): Option<nat>
    requires k < |list|
  {
    if k + 1 < |list| then Some(list[k + 1].addr) else None
  }

  function HeadOf(list: seq<Block>, k: nat): Option<nat> {
    if k < |list| then Some(list[k].addr) else None
  }

  ghost predicate Chain(m: Memory, head: Option<nat>, list: seq<Block>) {
    && head == HeadOf(list, 0)
    && (forall k :: 0 <= k < |list| ==> list[k].addr in m && m[list[k].addr] == Record(NextOf(list, k), list[k].size))
  }

  /** Memory holds the lists. */
  ghost predicate Stored(s: Store, lists: Lists) {
    |s.heads| == |lists| && forall i :: 0 <= i < |lists| ==> Chain(s.memory, s.heads[i], lists[i])
  }

  /** No two records share a byte. */
  ghost predicate Spaced(m: Memory) {
    forall a, b :: a in m && b in m && a != b ==> !Meets(a, b)
  }

  /** A record at `addr` shares no byte with the record of a free block. */
  ghost predicate RecordClear(lists: Lists, addr: nat) {
    forall i, k :: 0 <= i < |lists| && 0 <= k < |lists[i]| ==> !Meets(lists[i][k].addr, addr)
  }

  lemma PutSpaced(m: Memory, a: nat, r: Record)
    requires Spaced(m)
    ensures Spaced(Put(m, a, r))
  {
  }

  lemma PutSame(m: Memory, a: nat, r: Record)
    requires Spaced(m) && a in m
    ensures Put(m, a, r) == m[a := r]
  {
  }

  // ---------- Free blocks have addresses of their own

  lemma {:induction false} ChainDistinct(m: Memory, head: Option<nat>, list: seq<Block>, a: nat, b: nat)
    requires Chain(m, head, list) && a < b < |list|
    ensures list[a].addr != list[b].addr
    decreases |list| - b
  {
    if b + 1 < |list| {
      ChainDistinct(m, head, list, a + 1, b + 1);
    }
    assert NextOf(list, a) != NextOf(list, b);
  }

  lemma StoredApart(s: Store, lists: Lists, p: Place, q: Place)
    requires Stored(s, lists) && Classed(lists) && Holds(lists, p) && Holds(lists, q) && p != q
    ensures At(lists, p).addr != At(lists, q).addr
  {
    hide ListIndex;
    assert Chain(s.memory, s.heads[p.list], lists[p.list]) && Chain(s.memory, s.heads[q.list], lists[q.list]);
    if p.list == q.list {
      if p.at < q.at {
        ChainDistinct(s.memory, s.heads[p.list], lists[p.list], p.at, q.at);
      } else {
        ChainDistinct(s.memory, s.heads[p.list], lists[p.list], q.at, p.at);
      }
    }
  }

  // ---------- Insertion

  /** The lists after an insertion, place by place. */
  lemma InsertPlaces(lists: Lists, addr: nat, size: nat, p: Place)
    requires Classed(lists) && size > 0 && Holds(lists, p)
    ensures ListIndex(size).Some? && ListIndex(size).value < |lists|
    ensures var i, u := ListIndex(size).value, Insert(lists, addr, size);
      var q := if p.list == i then Place(i, p.at + 1) else p;
      Holds(u, q) && At(u, q) == At(lists, p) && Holds(u, Place(i, 0)) && At(u, Place(i, 0)) == Block(addr, size)
  {
  }

  lemma InsertKeepsChain(m: Memory, head: Option<nat>, list: seq<Block>, addr: nat, r: Record)
    requires Chain(m, head, list) && forall k :: 0 <= k < |list| ==> !Meets(list[k].addr, addr)
    ensures Chain(Put(m, addr, r), head, list)
  {
  }

  lemma InsertExtendsChain(m: Memory, head: Option<nat>, list: seq<Block>, addr: nat, size: nat)
    requires Chain(m, head, list) && forall k :: 0 <= k < |list| ==> !Meets(list[k].addr, addr)
    ensures Chain(Put(m, addr, Record(head, size)), Some(addr), [Block(addr, size)] + list)
  {
    hide Meets;
    var u, longer := Put(m, addr, Record(head, size)), [Block(addr, size)] + list;
    InsertKeepsChain(m, head, list, addr, Record(head, size));
    forall k | 0 <= k < |longer|
      ensures longer[k].addr in u && u[longer[k].addr] == Record(NextOf(longer, k), longer[k].size)
    {
      if k > 0 {
        assert longer[k] == list[k - 1] && NextOf(longer, k) == NextOf(list, k - 1);
      }
    }
  }

  lemma InsertWhenClear(s: Store, lists: Lists, addr: nat, size: nat)
    requires Stored(s, lists) && Classed(lists) && size > 0 && RecordClear(lists, addr)
    ensures Stored(InsertRecord(s, addr, size), Insert(lists, addr, size))
  {
    hide Chain, Put, Log2;
    var i := ListIndex(size).value;
    var r := Record(s.heads[i], size);
    forall j | 0 <= j < |lists|
      ensures Chain(InsertRecord(s, addr, size).memory, InsertRecord(s, addr, size).heads[j],
          Insert(lists, addr, size)[j])
    {
      if j == i {
        InsertExtendsChain(s.memory, s.heads[j], lists[j], addr, size);
      } else {
        InsertKeepsChain(s.memory, s.heads[j], lists[j], addr, r);
      }
    }
  }

  /** Memory holds the longer lists exactly when the new record shares no byte with the record of a free block. */
  lemma InsertHoldsIff(s: Store, lists: Lists, addr: nat, size: nat)
    requires Stored(s, lists) && Classed(lists) && size > 0
    ensures Stored(InsertRecord(s, addr, size), Insert(lists, addr, size)) <==> RecordClear(lists, addr)
  {
    hide Chain, Classed, Insert, InsertRecord;
    if RecordClear(lists, addr) {
      InsertWhenClear(s, lists, addr, size);
    } else {
      var i: nat, k: nat :| i < |lists| && k < |lists[i]| && Meets(lists[i][k].addr, addr);
      if Stored(InsertRecord(s, addr, size), Insert(lists, addr, size)) {
        InsertDestroys(s, lists, addr, size, Place(i, k));
      }
    }
  }

  lemma InsertDestroys(s: Store, lists: Lists, addr: nat, size: nat, p: Place)
    requires Classed(lists) && |s.heads| == |lists| && size > 0 && Holds(lists, p) && Meets(At(lists, p).addr, addr)
    ensures !Stored(InsertRecord(s, addr, size), Insert(lists, addr, size))
  {
    hide Log2;
    InsertPlaces(lists, addr, size, p);
    var i, u, t := ListIndex(size).value, Insert(lists, addr, size), InsertRecord(s, addr, size);
    var q := if p.list == i then Place(i, p.at + 1) else p;
    if Stored(t, u) {
      assert Chain(t.memory, t.heads[q.list], u[q.list]);
      assert At(u, q).addr in t.memory;
      InsertKeeps(lists, addr, size);
      StoredApart(t, u, q, Place(i, 0));
    }
  }

  // ---------- The search

  ghost predicate NoRepeat(xs: seq<nat>) {
    forall i, j :: 0 <= i < j < |xs| ==> xs[i] != xs[j]
  }

  /** Different addresses that all hold records are no more than the records. */
  lemma {:induction false} NoRepeatBound(xs: seq<nat>, keys: set<nat>)
    requires NoRepeat(xs) && forall i :: 0 <= i < |xs| ==> xs[i] in keys
    ensures |xs| <= |keys|
    decreases |xs|
  {
    if xs != [] {
      var last := xs[|xs| - 1];
      NoRepeatBound(xs[..|xs| - 1], keys - {last});
    }
  }

  ghost function Addrs(list: seq<Block>): seq<nat> {
    seq(|list|, k requires 0 <= k < |list| => list[k].addr)
  }

  /** A list in memory is no longer than the number of records. */
  lemma ChainLength(m: Memory, head: Option<nat>, list: seq<Block>)
    requires Chain(m, head, list)
    ensures |list| <= |m|
  {
    forall a, b | 0 <= a < b < |list| ensures Addrs(list)[a] != Addrs(list)[b] {
      ChainDistinct(m, head, list, a, b);
    }
    NoRepeatBound(Addrs(list), m.Keys);
    assert |m.Keys| == |m|;
  }

  /** What a walk along a list that memory holds comes to. */
  function Expected(list: seq<Block>, k: Option<nat>): Found
    requires k.Some? ==> k.value < |list|
  {
    match k
    case None => Miss
    case Some(j) => Hit(if j == 0 then None else Some(list[j - 1].addr), list[j].addr)
  }

  lemma {:induction false} WalkFinds(m: Memory, head: Option<nat>, list: seq<Block>, size: nat, align: nat, k: nat,
      fuel: nat)
    requires Chain(m, head, list) && align > 0 && k <= |list| <= k + fuel
    ensures var j := FirstIn(list, size, align, k);
      && (j.Some? ==> j.value < |list|)
      && Walk(m, if k == 0 then None else Some(list[k - 1].addr), HeadOf(list, k), size, align, fuel) == Expected(list,
        j)
    decreases |list| - k
  {
    hide Fits;
    if k < |list| {
      assert Read(m, list[k].addr) == Record(NextOf(list, k), list[k].size);
      assert Block(list[k].addr, list[k].size) == list[k];
      WalkFinds(m, head, list, size, align, k + 1, fuel - 1);
    }
  }

  lemma {:induction false} SeekFinds(s: Store, lists: Lists, size: nat, align: nat, i: nat)
    requires Stored(s, lists) && align > 0
    ensures match FirstFrom(lists, size, align, i)
      case None => Seek(s, size, align, i).found == Miss
      case Some(p) =>
        Holds(lists, p) && Seek(s, size, align, i) == Sought(p.list, Expected(lists[p.list], Some(p.at)))
    decreases |lists| - i
  {
    hide Fits, Chain;
    if i < |lists| {
      ChainLength(s.memory, s.heads[i], lists[i]);
      StartsAtHead(s, lists, i);
      WalkFinds(s.memory, s.heads[i], lists[i], size, align, 0, |s.memory| + 1);
      SeekFinds(s, lists, size, align, i + 1);
    }
  }

  lemma StartsAtHead(s: Store, lists: Lists, i: nat)
    requires Stored(s, lists) && i < |lists|
    ensures s.heads[i] == HeadOf(lists[i], 0)
  {
    assert Chain(s.memory, s.heads[i], lists[i]);
  }

  // ---------- Removal

  function PrevOf(list: seq<Block>, k: nat): Option<nat>
    requires k < |list|
  {
    if k == 0 then None else Some(list[k - 1].addr)
  }

  /** The memory after a record was taken out, as updates of two records. */
  lemma DetachMemory(s: Store, lists: Lists, p: Place)
    requires Spaced(s.memory) && Stored(s, lists) && Classed(lists) && Holds(lists, p)
    ensures var list := lists[p.list];
      var t := Detach(s, p.list, PrevOf(list, p.at), list[p.at].addr);
      && Spaced(t.memory)
      && t.memory == (var m := s.memory[list[p.at].addr := Record(None, list[p.at].size)];
                      if p.at == 0 then m else m[list[p.at - 1].addr := Record(NextOf(list, p.at),
                        list[p.at - 1].size)])
      && t.heads == if p.at == 0 then s.heads[p.list := NextOf(list, p.at)] else s.heads
  {
    hide ListIndex, Put, Spaced;
    var list := lists[p.list];
    var a, m := list[p.at].addr, s.memory;
    assert Chain(m, s.heads[p.list], list);
    var r := Record(None, list[p.at].size);
    PutSame(m, a, r);
    PutSpaced(m, a, r);
    if p.at > 0 {
      StoredApart(s, lists, p, Place(p.list, p.at - 1));
      var m1, q := m[a := r], Record(NextOf(list, p.at), list[p.at - 1].size);
      PutSame(m1, list[p.at - 1].addr, q);
      PutSpaced(m1, list[p.at - 1].addr, q);
    }
  }

  lemma DetachOther(s: Store, lists: Lists, p: Place, t: Store, j: nat)
    requires Stored(s, lists) && Classed(lists) && Holds(lists, p) && j < |lists| && j != p.list
    requires forall a :: a in s.memory && a != At(lists, p).addr && (p.at > 0 ==> a != lists[p.list][p.at - 1].addr) ==>
      a in t.memory && t.memory[a] == s.memory[a]
    ensures Chain(t.memory, s.heads[j], lists[j])
  {
    hide ListIndex;
    assert Chain(s.memory, s.heads[j], lists[j]);
    forall k | 0 <= k < |lists[j]|
      ensures lists[j][k].addr in t.memory && t.memory[lists[j][k].addr] == s.memory[lists[j][k].addr]
    {
      StoredApart(s, lists, Place(j, k), p);
      if p.at > 0 {
        StoredApart(s, lists, Place(j, k), Place(p.list, p.at - 1));
      }
    }
  }

  lemma DetachSame(s: Store, lists: Lists, p: Place)
    requires Spaced(s.memory) && Stored(s, lists) && Classed(lists) && Holds(lists, p)
    ensures var list := lists[p.list];
      var t := Detach(s, p.list, PrevOf(list, p.at), list[p.at].addr);
      p.list < |t.heads| && Chain(t.memory, t.heads[p.list], list[..p.at] + list[p.at + 1..])
  {
    hide ListIndex, Detach, Spaced, NextOf;
    var list := lists[p.list];
    var shorter := list[..p.at] + list[p.at + 1..];
    var t := Detach(s, p.list, PrevOf(list, p.at), list[p.at].addr);
    DetachMemory(s, lists, p);
    assert Chain(s.memory, s.heads[p.list], list);
    forall k | 0 <= k < |shorter|
      ensures shorter[k].addr in t.memory && t.memory[shorter[k].addr] == Record(NextOf(shorter, k), shorter[k].size)
    {
      var j := if k < p.at then k else k + 1;
      ShorterRecord(list, p.at, k);
      StoredApart(s, lists, Place(p.list, j), p);
      if p.at > 0 && j != p.at - 1 {
        StoredApart(s, lists, Place(p.list, j), Place(p.list, p.at - 1));
      }
    }
    HeadAfter(list, p.at);
  }

  /** The blocks of a list without block `at`, and the links between them. */
  lemma ShorterRecord(list: seq<Block>, at: nat, k: nat)
    requires at < |list| && k < |list| - 1
    ensures var shorter, j := list[..at] + list[at + 1..], if k < at then k else k + 1;
      && |shorter| == |list| - 1 && shorter[k] == list[j]
      && NextOf(shorter, k) == if j + 1 == at then NextOf(list, at) else NextOf(list, j)
  {
  }

  lemma HeadAfter(list: seq<Block>, at: nat)
    requires at < |list|
    ensures HeadOf(list[..at] + list[at + 1..], 0) == if at == 0 then NextOf(list, 0) else HeadOf(list, 0)
  {
  }

  /** Taking a record out leaves memory holding the lists without its block. */
  lemma DetachHolds(s: Store, lists: Lists, p: Place)
    requires Spaced(s.memory) && Stored(s, lists) && Classed(lists) && Holds(lists, p)
    ensures var t := Detach(s, p.list, PrevOf(lists[p.list], p.at), At(lists, p).addr);
      Spaced(t.memory) && Stored(t, Unlink(lists, p))
  {
    hide Chain, Classed, Spaced, Detach;
    var t := Detach(s, p.list, PrevOf(lists[p.list], p.at), At(lists, p).addr);
    DetachMemory(s, lists, p);
    DetachSame(s, lists, p);
    forall j | 0 <= j < |lists| && j != p.list ensures Chain(t.memory, s.heads[j], lists[j]) {
      DetachOther(s, lists, p, t, j);
    }
  }

  /** The rest of the block that a request would split meets no record of another free block. */
  ghost predicate RestClear(lists: Lists, size: nat, align: nat)
    requires align > 0
  {
    match Search(lists, size, align)
    case None => true
    case Some(p) =>
      Holds(lists, p) && Splits(At(lists, p), size) ==>
        RecordClear(Unlink(lists, p), At(lists, p).addr + 24 * size)
  }

  function ReplyOf(b: Option<Block>): Reply {
    match b case None => Nothing case Some(block) => Got(block)
  }

  /**
    `remove_best_fit` on memory that holds the lists answers as on the lists and never loops; afterwards memory holds
    the lists it should exactly when the rest of a split block meets no record of another free block.
   */
  lemma TakeFitHoldsIff(s: Store, lists: Lists, size: nat, align: nat)
    requires Spaced(s.memory) && Stored(s, lists) && Classed(lists) && align > 0
    ensures var (t, r) := TakeFit(s, size, align);
      var (rest, b) := RemoveBestFit(lists, size, align);
      && Spaced(t.memory) && r == ReplyOf(b)
      && (Stored(t, rest) <==> RestClear(lists, size, align))
  {
    hide Stored, Classed, Spaced, Detach, InsertRecord, Insert, Unlink, RecordClear, Seek, FirstFrom;
    SeekFinds(s, lists, size, align, StartList(size));
    match Search(lists, size, align)
    case None =>
    case Some(p) =>
      var b := At(lists, p);
      SizeInMemory(s, lists, p);
      var t := Detach(s, p.list, PrevOf(lists[p.list], p.at), b.addr);
      DetachHolds(s, lists, p);
      if Splits(b, size) {
        UnlinkKeeps(lists, p);
        InsertHoldsIff(t, Unlink(lists, p), b.addr + 24 * size, b.size - size);
        InsertSpaced(t, b.addr + 24 * size, b.size - size);
      }
  }

  lemma SizeInMemory(s: Store, lists: Lists, p: Place)
    requires Stored(s, lists) && Holds(lists, p)
    ensures Read(s.memory, At(lists, p).addr).size == At(lists, p).size
  {
    assert Chain(s.memory, s.heads[p.list], lists[p.list]);
  }

  lemma InsertSpaced(s: Store, addr: nat, size: nat)
    requires Spaced(s.memory)
    ensures Spaced(InsertRecord(s, addr, size).memory)
  {
    hide Put, Spaced;
    if ListIndex(size).Some? && ListIndex(size).value < |s.heads| {
      PutSpaced(s.memory, addr, Record(s.heads[ListIndex(size).value], size));
    }
  }

  // ---------- Reading the lists off memory

  /** The blocks met by following the records from `cur`, as far as `fuel` reaches. */
  function Gather(m: Memory, cur: Option<nat>, fuel: nat): seq<Block>
    decreases fuel
  {
    match cur
    case None => []
    case Some(a) => if fuel == 0 then [] else [Block(a, Read(m, a).size)] + Gather(m, Read(m, a).next, fuel - 1)
  }

  /** The free lists that a store holds. */
  function FreeIn(s: Store): Lists {
    seq(|s.heads|, i requires 0 <= i < |s.heads| => Gather(s.memory, s.heads[i], |s.memory|))
  }

  lemma {:induction false} GatherIs(m: Memory, head: Option<nat>, list: seq<Block>, k: nat, fuel: nat)
    requires Chain(m, head, list) && k <= |list| <= k + fuel
    ensures Gather(m, HeadOf(list, k), fuel) == list[k..]
    decreases |list| - k
  {
    if k < |list| {
      assert Read(m, list[k].addr) == Record(NextOf(list, k), list[k].size);
      GatherIs(m, head, list, k + 1, fuel - 1);
      assert list[k..] == [Block(list[k].addr, list[k].size)] + list[k + 1..];
    }
  }

  lemma FreeInIs(s: Store, lists: Lists)
    requires Stored(s, lists)
    ensures FreeIn(s) == lists
  {
    hide Chain;
    forall i | 0 <= i < |lists| ensures FreeIn(s)[i] == lists[i] {
      ChainLength(s.memory, s.heads[i], lists[i]);
      StartsAtHead(s, lists, i);
      GatherIs(s.memory, s.heads[i], lists[i], 0, |s.memory|);
      assert lists[i][0..] == lists[i];
    }
  }

  // ---------- A walk that has visited more records than there are never ends

  /** Where a walk that finds nothing stands after `j` records. */
  function After(m: Memory, cur: Option<nat>, j: nat): Option<nat> {
    if j == 0 then cur
    else
      match After(m, cur, j - 1)
      case None => None
      case Some(a) => Read(m, a).next
  }

  lemma {:induction false} AfterStep(m: Memory, a: nat, j: nat)
    ensures After(m, Some(a), j + 1) == After(m, Read(m, a).next, j)
  {
    if j > 0 {
      AfterStep(m, a, j - 1);
    }
  }

  /** The walk passes record `j` without taking it. */
  ghost predicate Passes(m: Memory, cur: Option<nat>, size: nat, align: nat, j: nat)
    requires align > 0
  {
    After(m, cur, j).Some? && !Fits(Block(After(m, cur, j).value, Read(m, After(m, cur, j).value).size), size, align)
  }

  lemma {:induction false} LoopsIff(m: Memory, prev: Option<nat>, cur: Option<nat>, size: nat, align: nat, fuel: nat)
    requires align > 0
    ensures Walk(m, prev, cur, size, align, fuel) == Loops <==>
      (forall j: nat :: j < fuel ==> Passes(m, cur, size, align, j)) && After(m, cur, fuel).Some?
    decreases fuel
  {
    hide Fits;
    if cur.Some? && fuel > 0 {
      var a := cur.value;
      var next := Read(m, a).next;
      forall j: nat ensures After(m, cur, j + 1) == After(m, next, j) {
        AfterStep(m, a, j);
      }
      LoopsIff(m, cur, next, size, align, fuel - 1);
      assert After(m, cur, fuel) == After(m, next, fuel - 1) by { AfterStep(m, a, fuel - 1); }
      assert After(m, cur, 0) == cur;
      forall j: nat | j < fuel - 1 ensures Passes(m, next, size, align, j) <==> Passes(m, cur, size, align, j + 1) {
        AfterStep(m, a, j);
      }
      if forall j: nat :: j < fuel ==> Passes(m, cur, size, align, j) {
        assert Passes(m, cur, size, align, 0);
      }
      if Walk(m, prev, cur, size, align, fuel) == Loops {
        forall j: nat | j < fuel ensures Passes(m, cur, size, align, j) {
          if j > 0 {
            assert Passes(m, next, size, align, j - 1);
          }
        }
      }
    } else if cur == None && fuel > 0 {
      assert !Passes(m, cur, size, align, 0);
    }
  }

  lemma {:induction false} AfterPeriod(m: Memory, cur: Option<nat>, i: nat, j: nat, t: nat)
    requires After(m, cur, i) == After(m, cur, j)
    ensures After(m, cur, i + t) == After(m, cur, j + t)
  {
    if t > 0 {
      AfterPeriod(m, cur, i, j, t - 1);
    }
  }

  /** The walk has come back to a record it passed. */
  lemma ComesRound(m: Memory, cur: Option<nat>) returns (i: nat, j: nat)
    requires forall k: nat :: k <= |m| + 1 ==> After(m, cur, k).Some?
    ensures i < j <= |m| && After(m, cur, i) == After(m, cur, j)
  {
    var xs := seq(|m| + 1, k requires 0 <= k < |m| + 1 => After(m, cur, k).value);
    forall k | 0 <= k < |xs| ensures xs[k] in m.Keys {
      assert After(m, cur, k + 1).Some?;
    }
    assert |m.Keys| == |m|;
    if NoRepeat(xs) {
      NoRepeatBound(xs, m.Keys);
    }
    i, j :| 0 <= i < j < |xs| && xs[i] == xs[j];
  }

  lemma {:induction false} PassesAll(m: Memory, cur: Option<nat>, size: nat, align: nat, i: nat, j: nat, t: nat)
    requires align > 0 && i < j && After(m, cur, i) == After(m, cur, j)
    requires forall k: nat :: k < j ==> Passes(m, cur, size, align, k)
    ensures Passes(m, cur, size, align, t)
    decreases t
  {
    hide Fits;
    if t >= j {
      AfterPeriod(m, cur, i, j, t - j);
      PassesAll(m, cur, size, align, i, j, t - (j - i));
      assert i + (t - j) == t - (j - i);
    }
  }

  /** A walk that visits more records than memory holds never ends, however long it goes on. */
  lemma LoopsForever(m: Memory, prev: Option<nat>, cur: Option<nat>, size: nat, align: nat, fuel: nat)
    requires align > 0 && Walk(m, prev, cur, size, align, |m| + 1) == Loops
    ensures Walk(m, prev, cur, size, align, fuel) == Loops
  {
    hide Fits, Walk;
    LoopsIff(m, prev, cur, size, align, |m| + 1);
    forall k: nat | k <= |m| + 1 ensures After(m, cur, k).Some? {
      assert k < |m| + 1 ==> Passes(m, cur, size, align, k);
    }
    var i, j := ComesRound(m, cur);
    forall t: nat ensures Passes(m, cur, size, align, t) {
      PassesAll(m, cur, size, align, i, j, t);
    }
    assert Passes(m, cur, size, align, fuel);
    LoopsIff(m, prev, cur, size, align, fuel);
  }
}
