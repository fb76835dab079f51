/**
  The segregated free lists of src/memory/heap.rs: 32 lists of blocks, by the floor of the binary logarithm of the size.
 */
module FreeLists {
  import opened Options

  const MAX_FREE_LISTS: nat := 32

  datatype Block = Block(addr: nat, size: nat)

  type Lists = seq<seq<Block>>

  /** 63 minus the leading zeros of a non-zero 64-bit size. */
  function Log2(n: nat): nat {
    if n < 2 then 0 else 1 + Log2(n / 2)
  }

  function Pow2(k: nat): nat {
    if k == 0 then 1 else 2 * Pow2(k - 1)
  }

  /** `get_list_index`. */
  function ListIndex(size: nat): Option<nat> {
    if size == 0 then None else Some(if Log2(size) < MAX_FREE_LISTS then Log2(size) else MAX_FREE_LISTS - 1)
  }

  /** The bytes skipped to align a block; alignments are powers of two, so masking rounds to a multiple. */
  function Offset(addr: nat, align: nat): nat
    requires align > 0
  {
    RoundUpLemma(addr, align);
    (addr + align - 1) / align * align - addr
  }

  lemma RoundUpLemma(addr: nat, align: nat)
    requires align > 0
    ensures (addr + align - 1) / align * align >= addr
  {
    var x := addr + align - 1;
    assert x == align * (x / align) + x % align;
  }

  predicate Fits(b: Block, size: nat, align: nat)
    requires align > 0
  {
    Offset(b.addr, align) + size <= b.size
  }

  /** An aligned stretch of `size` bytes at `p` lies inside the block. */
  predicate AlignedAt(b: Block, size: nat, align: nat, p: nat)
    requires align > 0
  {
    b.addr <= p && p % align == 0 && p + size <= b.addr + b.size
  }

  /** A block fits a request exactly when an aligned stretch of that size lies inside it. */
  lemma FitsIff(b: Block, size: nat, align: nat)
    requires align > 0
    ensures Fits(b, size, align) <==> exists p: nat :: AlignedAt(b, size, align, p)
  {
    var q := b.addr + Offset(b.addr, align);
    FirstAligned(b.addr, align);
    if Fits(b, size, align) {
      assert AlignedAt(b, size, align, q);
    }
    forall p: nat | AlignedAt(b, size, align, p) ensures q <= p {
      NoneBefore(b.addr, align, p);
    }
  }

  lemma FirstAligned(addr: nat, align: nat)
    requires align > 0
    ensures (addr + Offset(addr, align)) % align == 0 && Offset(addr, align) < align
  {
    var x := addr + align - 1;
    assert x == align * (x / align) + x % align;
    MultipleOf(align, x / align);
  }

  lemma MultipleOf(d: nat, k: nat)
    requires d > 0
    ensures (d * k) % d == 0 && (k * d) % d == 0
  {
    var q, r := (d * k) / d, (d * k) % d;
    assert d * (k - q) == r;
    SmallRest(d, k - q, r);
  }

  lemma SmallRest(d: nat, m: int, r: nat)
    requires r < d && d * m == r
    ensures r == 0
  {
  }

  lemma NoneBefore(addr: nat, align: nat, p: nat)
    requires align > 0 && addr <= p && p % align == 0
    ensures addr + Offset(addr, align) <= p
  {
    var x := addr + align - 1;
    var k, q := x / align, p / align;
    assert x == align * k + x % align && p == align * q;
    if q < k {
      Below(align, q, k);
    } else {
      Above(align, k, q);
    }
  }

  lemma Below(d: nat, q: nat, k: nat)
    requires q < k
    ensures d * q + d <= d * k
  {
    Above(d, q + 1, k);
    assert d * (q + 1) == d * q + d;
  }

  lemma Above(d: nat, k: nat, q: nat)
    requires k <= q
    ensures d * k <= d * q
  {
  }

  function Insert(lists: Lists, addr: nat, size: nat): Lists {
    match ListIndex(size)
    case None => lists
    case Some(i) => if i < |lists| then lists[i := [Block(addr, size)] + lists[i]] else lists
  }

  /** The first fitting block of a list from position `k` on. */
  function FirstIn(list: seq<Block>, size: nat, align: nat, k: nat): Option<nat>
    requires align > 0
    decreases |list| - k
  {
    if k >= |list| then None else if Fits(list[k], size, align) then Some(k) else FirstIn(list, size, align, k + 1)
  }

  /** A place in the lists. */
  datatype Place = Place(list: nat, at: nat)

  /** The first fitting block of the lists from `i` on. */
  function FirstFrom(lists: Lists, size: nat, align: nat, i: nat): Option<Place>
    requires align > 0
    decreases |lists| - i
  {
    if i >= |lists| then None
    else
      match FirstIn(lists[i], size, align, 0)
      case Some(k) => Some(Place(i, k))
      case None => FirstFrom(lists, size, align, i + 1)
  }

  /** The list at which the search for a request starts. */
  function StartList(size: nat): nat {
    match ListIndex(size) case Some(i) => i case None => 0
  }

  /** The search of `remove_best_fit`: from the size class of the request upwards. */
  function Search(lists: Lists, size: nat, align: nat): Option<Place>
    requires align > 0
  {
    FirstFrom(lists, size, align, StartList(size))
  }

  predicate Holds(lists: Lists, p: Place) {
    p.list < |lists| && p.at < |lists[p.list]|
  }

  function At(lists: Lists, p: Place): Block
    requires Holds(lists, p)
  {
    lists[p.list][p.at]
  }

  function Unlink(lists: Lists, p: Place): Lists
    requires Holds(lists, p)
  {
    lists[p.list := lists[p.list][..p.at] + lists[p.list][p.at + 1..]]
  }

  /** A block is split when more than 32 bytes would be left over. */
  predicate Splits(b: Block, size: nat) {
    b.size > size + 32
  }

  /**
    `remove_best_fit`: the lists it leaves and the block it takes. The rest of a split block is placed 24 bytes on per
    byte requested.
   */
  function RemoveBestFit(lists: Lists, size: nat, align: nat): (Lists, Option<Block>)
    requires align > 0
  {
    match Search(lists, size, align)
    case None => (lists, None)
    case Some(p) =>
      if !Holds(lists, p) then (lists, None)
      else
        var b := At(lists, p);
        var rest := Unlink(lists, p);
        if Splits(b, size) && b.size >= size
        then (Insert(rest, b.addr + 24 * size, b.size - size), Some(b))
        else (rest, Some(b))
  }

  // ---------- Size classes

  lemma {:induction false} Log2Bounds(n: nat)
    requires n > 0
    ensures Pow2(Log2(n)) <= n < Pow2(Log2(n) + 1)
  {
    if n >= 2 {
      Log2Bounds(n / 2);
    }
  }

  lemma {:induction false} Log2Monotone(m: nat, n: nat)
    requires m <= n
    ensures Log2(m) <= Log2(n)
  {
    if m >= 2 {
      Log2Monotone(m / 2, n / 2);
    }
  }

  /** List `i` below the top holds the sizes from 2^i to 2^(i+1); the top list holds all larger ones. */
  lemma ClassMeaning(size: nat, i: nat)
    requires size > 0 && i < MAX_FREE_LISTS
    ensures ListIndex(size) == Some(i) <==> Pow2(i) <= size && (i < MAX_FREE_LISTS - 1 ==> size < Pow2(i + 1))
  {
    Log2Bounds(size);
    var l := Log2(size);
    if l < i {
      Pow2Monotone(l + 1, i);
    } else if l > i {
      Pow2Monotone(i + 1, l);
      Pow2Monotone(i, l);
    }
  }

  lemma {:induction false} Pow2Monotone(i: nat, j: nat)
    requires i <= j
    ensures Pow2(i) <= Pow2(j)
  {
    if i < j {
      Pow2Monotone(i, j - 1);
    }
  }

  /** Every block is in the list of its size class. */
  ghost predicate Classed(lists: Lists) {
    && |lists| == MAX_FREE_LISTS
    && (forall i, k :: 0 <= i < |lists| && 0 <= k < |lists[i]| ==> ListIndex(lists[i][k].size) == Some(i))
  }

  lemma InsertKeeps(lists: Lists, addr: nat, size: nat)
    requires Classed(lists)
    ensures Classed(Insert(lists, addr, size))
  {
  }

  lemma UnlinkKeeps(lists: Lists, p: Place)
    requires Classed(lists) && Holds(lists, p)
    ensures Classed(Unlink(lists, p))
  {
  }

  /** Removing and splitting keep the classes. */
  lemma RemoveKeeps(lists: Lists, size: nat, align: nat)
    requires Classed(lists) && align > 0
    ensures Classed(RemoveBestFit(lists, size, align).0)
  {
    hide Classed, Search;
    match Search(lists, size, align)
    case None =>
    case Some(p) =>
      if Holds(lists, p) {
        UnlinkKeeps(lists, p);
        var b := At(lists, p);
        if Splits(b, size) {
          InsertKeeps(Unlink(lists, p), b.addr + 24 * size, b.size - size);
        }
      }
  }

  // ---------- The search is complete

  lemma {:induction false} FirstInFinds(list: seq<Block>, size: nat, align: nat, k: nat)
    requires align > 0
    ensures match FirstIn(list, size, align, k)
      case None => forall j :: k <= j < |list| ==> !Fits(list[j], size, align)
      case Some(j) =>
        k <= j < |list| && Fits(list[j], size, align) && forall m :: k <= m < j ==> !Fits(list[m], size, align)
    decreases |list| - k
  {
    hide Fits;
    if k < |list| && !Fits(list[k], size, align) {
      FirstInFinds(list, size, align, k + 1);
    }
  }

  lemma {:induction false} FirstFromFinds(lists: Lists, size: nat, align: nat, i: nat)
    requires align > 0
    ensures match FirstFrom(lists, size, align, i)
      case None => forall l, k :: i <= l < |lists| && 0 <= k < |lists[l]| ==> !Fits(lists[l][k], size, align)
      case Some(p) =>
        && i <= p.list && Holds(lists, p) && Fits(At(lists, p), size, align)
        && (forall l, k :: i <= l < |lists| && 0 <= k < |lists[l]| && Fits(lists[l][k], size, align) ==>
              p.list < l || (p.list == l && p.at <= k))
    decreases |lists| - i
  {
    hide Fits;
    if i < |lists| {
      FirstInFinds(lists[i], size, align, 0);
      FirstFromFinds(lists, size, align, i + 1);
    }
  }

  /** A block that fits a request is in the request's size class or above. */
  lemma FitsInClass(b: Block, size: nat, align: nat)
    requires align > 0 && Fits(b, size, align) && b.size > 0
    ensures size > 0 ==> ListIndex(size).value <= ListIndex(b.size).value
  {
    Log2Monotone(size, b.size);
  }

  /**
    The search finds nothing exactly when no free block of any list fits; otherwise it finds the first fitting block
    of the lowest list that has one.
   */
  lemma SearchComplete(lists: Lists, size: nat, align: nat)
    requires Classed(lists) && align > 0
    ensures Search(lists, size, align) == None <==>
      forall i, k :: 0 <= i < |lists| && 0 <= k < |lists[i]| ==> !Fits(lists[i][k], size, align)
    ensures Search(lists, size, align).Some? ==> var p := Search(lists, size, align).value;
      && Holds(lists, p) && Fits(At(lists, p), size, align)
      && (forall i, k :: 0 <= i < |lists| && 0 <= k < |lists[i]| && Fits(lists[i][k], size, align) ==>
            p.list < i || (p.list == i && p.at <= k))
  {
    hide Fits, FirstFrom;
    var start := StartList(size);
    FirstFromFinds(lists, size, align, start);
    forall i, k | 0 <= i < |lists| && 0 <= k < |lists[i]| && Fits(lists[i][k], size, align) ensures start <= i {
      FitsInClass(lists[i][k], size, align);
    }
  }

  /** `remove_best_fit` fails exactly when no free block fits. */
  lemma RemoveFailsIff(lists: Lists, size: nat, align: nat)
    requires Classed(lists) && align > 0
    ensures RemoveBestFit(lists, size, align).1 == None <==>
      forall i, k :: 0 <= i < |lists| && 0 <= k < |lists[i]| ==> !Fits(lists[i][k], size, align)
    ensures var b := RemoveBestFit(lists, size, align).1; b.Some? ==> Fits(b.value, size, align)
  {
    hide Fits, Search, Insert, Unlink;
    SearchComplete(lists, size, align);
  }

  // ---------- Bytes

  function ListBytes(list: seq<Block>): nat {
    if list == [] then 0 else list[0].size + ListBytes(list[1..])
  }

  function FreeBytes(lists: Lists): nat {
    if lists == [] then 0 else ListBytes(lists[0]) + FreeBytes(lists[1..])
  }

  lemma {:induction false} ListBytesSplit(a: seq<Block>, b: seq<Block>)
    ensures ListBytes(a + b) == ListBytes(a) + ListBytes(b)
  {
    if a == [] {
      assert a + b == b;
    } else {
      assert (a + b)[1..] == a[1..] + b;
      ListBytesSplit(a[1..], b);
    }
  }

  lemma ListBytesCons(b: Block, list: seq<Block>)
    ensures ListBytes([b] + list) == b.size + ListBytes(list)
  {
    assert ([b] + list)[1..] == list;
  }

  /** Taking one block out of a list. */
  lemma ListBytesRemove(list: seq<Block>, k: nat)
    requires k < |list|
    ensures ListBytes(list) == ListBytes(list[..k] + list[k + 1..]) + list[k].size
  {
    hide ListBytes;
    var a, b := list[..k], list[k + 1..];
    assert list == a + ([list[k]] + b);
    ListBytesSplit(a, [list[k]] + b);
    ListBytesCons(list[k], b);
    ListBytesSplit(a, b);
  }

  lemma {:induction false} FreeBytesUpdate(lists: Lists, i: nat, list: seq<Block>)
    requires i < |lists|
    ensures FreeBytes(lists[i := list]) == FreeBytes(lists) - ListBytes(lists[i]) + ListBytes(list)
  {
    if i == 0 {
      assert lists[0 := list][1..] == lists[1..];
    } else {
      assert lists[i := list][1..] == lists[1..][i - 1 := list];
      FreeBytesUpdate(lists[1..], i - 1, list);
    }
  }

  lemma InsertBytes(lists: Lists, addr: nat, size: nat)
    requires Classed(lists)
    ensures FreeBytes(Insert(lists, addr, size)) == FreeBytes(lists) + size
  {
    if size > 0 {
      var i := ListIndex(size).value;
      var list := [Block(addr, size)] + lists[i];
      assert list[1..] == lists[i];
      FreeBytesUpdate(lists, i, list);
    }
  }

  lemma UnlinkBytes(lists: Lists, p: Place)
    requires Holds(lists, p)
    ensures FreeBytes(Unlink(lists, p)) == FreeBytes(lists) - At(lists, p).size
  {
    hide ListBytes, FreeBytes;
    var list := lists[p.list];
    ListBytesRemove(list, p.at);
    FreeBytesUpdate(lists, p.list, list[..p.at] + list[p.at + 1..]);
  }

  /**
    The bytes that an allocation of `size` takes out of the lists: exactly `size` when the block splits, else the whole
    block.
   */
  lemma RemoveBytes(lists: Lists, size: nat, align: nat)
    requires Classed(lists) && align > 0 && RemoveBestFit(lists, size, align).1.Some?
    ensures var (rest, b) := RemoveBestFit(lists, size, align);
      && size <= b.value.size
      && FreeBytes(rest) == FreeBytes(lists) - (if Splits(b.value, size) then size else b.value.size)
  {
    hide Search, Insert, Unlink, Classed;
    SearchComplete(lists, size, align);
    var p := Search(lists, size, align).value;
    UnlinkBytes(lists, p);
    UnlinkKeeps(lists, p);
    var b := At(lists, p);
    if Splits(b, size) {
      InsertBytes(Unlink(lists, p), b.addr + 24 * size, b.size - size);
    }
  }
}
