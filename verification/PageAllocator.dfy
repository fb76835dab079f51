/**
  `PhysicalPageAllocator` of src/syscall/core.rs shared by any number of threads: each step is one atomic access,
  memory is sequentially consistent, and a weak compare-and-swap may fail although the word is unchanged.
 */
module PageAllocator {
  import opened Options
  import opened Bitmap
  import opened SequentialPages

  /** The page-aligned region the allocator manages. */
  datatype Region = Region(start: nat, end: nat)

  ghost predicate Aligned(c: Region) {
    c.start <= c.end && c.start % 4096 == 0 && c.end % 4096 == 0
  }

  function Total(c: Region): nat {
    if c.start <= c.end then (c.end - c.start) / 4096 else 0
  }

  /** The range and alignment test of `deallocate_page` and `is_allocated`. */
  predicate ValidAddr(c: Region, addr: nat) {
    c.start <= addr < c.end && (addr - c.start) % 4096 == 0
  }

  function PageOf(c: Region, addr: nat): nat
    requires c.start <= addr
  {
    (addr - c.start) / 4096
  }

  /** The address that `allocate_page` returns for a page. */
  function AddrOf(c: Region, page: nat): nat {
    c.start + page * 4096
  }

  function Answer(c: Region, r: Option<nat>): Option<nat> {
    match r case None => None case Some(page) => Some(AddrOf(c, page))
  }

  /** Where a thread stands inside an operation; `failed` counts its failed compare-and-swaps on the bitmap. */
  datatype Pc =
    | Idle
    | AllocSpin
    | AllocLoadHint
    | AllocScan(idx: nat, k: nat, failed: nat)
    | AllocSwap(idx: nat, k: nat, failed: nat, seen: bv64)
    | AllocStoreHint(idx: nat, failed: nat)
    | AllocUnlock(result: Option<nat>, failed: nat)
    | FreeSpin(addr: nat)
    | FreeClear(page: nat, addr: nat)
    | FreeUnlock(page: nat, ok: bool, addr: nat)

  /** `log` records the finished operations in the order in which they released the lock. */
  datatype State = State(words: seq<bv64>, hint: nat, locked: bool, threads: seq<Pc>, log: seq<Event>)

  /**
    An idle thread starts an operation; a busy one takes its next step, in which a weak compare-and-swap may fail
    spuriously.
   */
  datatype Action = StartAlloc | StartFree(addr: nat) | Go | Spurious

  function Move(s: State, t: nat, pc: Pc): State
    requires t < |s.threads|
  {
    s.(threads := s.threads[t := pc])
  }

  /** The loop head of `allocate_page`: one page is examined. */
  function ScanStep(c: Region, s: State, t: nat): State
    requires t < |s.threads| && s.threads[t].AllocScan?
  {
    var AllocScan(idx, k, failed) := s.threads[t];
    if k >= Total(c) then Move(s, t, AllocUnlock(None, failed))
    else
      var page := if idx >= Total(c) then 0 else idx;
      if page / 64 >= |s.words| then Move(s, t, AllocUnlock(None, failed))
      else if !BitOf(s.words[page / 64], page % 64) then Move(s, t, AllocSwap(page, k, failed, s.words[page / 64]))
      else Move(s, t, AllocScan(page + 1, k + 1, failed))
  }

  /** The compare-and-swap that claims a page; when it fails the same page is examined again in the next round. */
  function SwapStep(s: State, t: nat, spurious: bool): State
    requires t < |s.threads| && s.threads[t].AllocSwap?
  {
    var AllocSwap(idx, k, failed, seen) := s.threads[t];
    if !spurious && idx / 64 < |s.words| && s.words[idx / 64] == seen
    then Move(s.(words := s.words[idx / 64 := SetIn(seen, idx % 64)]), t, AllocStoreHint(idx, failed))
    else Move(s, t, AllocScan(idx, k + 1, failed + 1))
  }

  /** The fetch-and that gives a page back. */
  function ClearStep(s: State, t: nat): State
    requires t < |s.threads| && s.threads[t].FreeClear?
  {
    var FreeClear(page, addr) := s.threads[t];
    if page / 64 >= |s.words| then Move(s, t, FreeUnlock(page, false, addr))
    else Move(s.(words := Clear(s.words, page)), t, FreeUnlock(page, Get(s.words, page), addr))
  }

  function Step(c: Region, s: State, t: nat, a: Action): State {
    if t >= |s.threads| then s
    else
      match s.threads[t]
      case Idle =>
        (match a
         case StartAlloc => Move(s, t, AllocSpin)
         case StartFree(addr) => if ValidAddr(c, addr) then Move(s, t, FreeSpin(addr)) else s
         case _ => s)
      case AllocSpin => if s.locked || a.Spurious? then s else Move(s.(locked := true), t, AllocLoadHint)
      case AllocLoadHint => Move(s, t, AllocScan(s.hint, 0, 0))
      case AllocScan(_, _, _) => ScanStep(c, s, t)
      case AllocSwap(_, _, _, _) => SwapStep(s, t, a.Spurious?)
      case AllocStoreHint(idx, failed) =>
        Move(s.(hint := if Total(c) == 0 then 0 else (idx + 1) % Total(c)), t, AllocUnlock(Some(idx), failed))
      case AllocUnlock(r, failed) => Move(s.(locked := false, log := s.log + [Alloc(r, failed, Answer(c, r))]), t, Idle)
      case FreeSpin(addr) =>
        if s.locked || a.Spurious? || addr < c.start then s
        else Move(s.(locked := true), t, FreeClear(PageOf(c, addr), addr))
      case FreeClear(_, _) => ClearStep(s, t)
      case FreeUnlock(page, ok, addr) => Move(s.(locked := false, log := s.log + [Free(page, ok, addr)]), t, Idle)
  }

  function Run(c: Region, s: State, schedule: seq<(nat, Action)>): State
    decreases |schedule|
  {
    if schedule == [] then s
    else
      var last := schedule[|schedule| - 1];
      Step(c, Run(c, s, schedule[..|schedule| - 1]), last.0, last.1)
  }

  /** `new`, and `n` idle threads. */
  function Init(c: Region, n: nat): State {
    State(seq(WordCount(Total(c)), _ => 0), 0, false, seq(n, _ => Idle), [])
  }

  // ---------- The invariant

  predicate Critical(pc: Pc) {
    !pc.Idle? && !pc.AllocSpin? && !pc.FreeSpin?
  }

  /** The pages as the finished operations leave them. */
  function Settled(c: Region, s: State): Pages {
    Replay(Total(c), s.log)
  }

  ghost predicate Bits(c: Region, s: State, taken: set<nat>) {
    Represents(s.words, Total(c), taken)
  }

  /** Nothing has been changed since the last operation finished. */
  ghost predicate Clean(c: Region, s: State) {
    Bits(c, s, Settled(c, s).taken) && s.hint == Settled(c, s).hint
  }

  /** What a thread inside its critical section knows. */
  ghost predicate Knows(c: Region, s: State, pc: Pc) {
    var q, n := Settled(c, s), Total(c);
    match pc
    case AllocLoadHint => Clean(c, s)
    case AllocScan(idx, k, failed) =>
      && Clean(c, s) && failed <= k <= n && Searched(n, q, k - failed)
      && (n > 0 ==> (if idx >= n then 0 else idx) == Visit(n, q.hint, k - failed))
    case AllocSwap(idx, k, failed, seen) =>
      && Clean(c, s) && failed <= k < n && Searched(n, q, k - failed)
      && idx == Visit(n, q.hint, k - failed) && idx !in q.taken && idx / 64 < |s.words| && seen == s.words[idx / 64]
    case AllocStoreHint(idx, failed) =>
      && NextFrom(q.taken, n, q.hint, 0) == Some(idx) && InTime(n, q, idx, failed) && Bits(c, s, q.taken + {idx})
        && s.hint == q.hint
    case AllocUnlock(r, failed) =>
      && Legal(n, q, Alloc(r, failed, Answer(c, r)))
      && Bits(c, s, Apply(n, q, Alloc(r, failed, None)).taken) && s.hint == Apply(n, q, Alloc(r, failed, None)).hint
    case FreeClear(page, addr) => Clean(c, s) && page < n && addr == AddrOf(c, page)
    case FreeUnlock(page, ok, addr) =>
      && page < n && addr == AddrOf(c, page) && (ok <==> page in q.taken) && Bits(c, s, q.taken - {page})
        && s.hint == q.hint
    case _ => true
  }

  /** The lock is held exactly when one thread is in its critical section. */
  ghost predicate Mutex(s: State) {
    && (s.locked <==> exists t :: 0 <= t < |s.threads| && Critical(s.threads[t]))
    && (forall t, u ::
          0 <= t < |s.threads| && 0 <= u < |s.threads| && Critical(s.threads[t]) && Critical(s.threads[u]) ==> t == u)
  }

  /** Addresses answered and passed are those of the pages handed out and given back. */
  ghost predicate Addressed(c: Region, log: seq<Event>) {
    forall i :: 0 <= i < |log| ==>
      match log[i]
      case Alloc(r, _, answer) => answer == Answer(c, r)
      case Free(page, _, addr) => addr == AddrOf(c, page)
  }

  ghost predicate Inv(c: Region, s: State) {
    && Aligned(c) && Mutex(s) && AllLegal(Total(c), s.log)
    && (!s.locked ==> Clean(c, s))
    && (forall t :: 0 <= t < |s.threads| && Critical(s.threads[t]) ==> Knows(c, s, s.threads[t]))
    && (forall t :: 0 <= t < |s.threads| && s.threads[t].FreeSpin? ==> ValidAddr(c, s.threads[t].addr))
    && Addressed(c, s.log)
  }

  // ---------- How a step moves the threads

  /** A thread moves on inside its critical section. */
  lemma InsideKeeps(c: Region, s: State, u: State, t: nat)
    requires Inv(c, s) && t < |s.threads| && Critical(s.threads[t])
    requires |u.threads| == |s.threads| && u.threads == s.threads[t := u.threads[t]] && Critical(u.threads[t])
    requires u.locked == s.locked && u.log == s.log && Knows(c, u, u.threads[t])
    ensures Inv(c, u)
  {
    hide Knows, Clean, AllLegal, Aligned;
    assert u.locked;
  }

  /** A thread leaves its critical section and releases the lock. */
  lemma LeaveKeeps(c: Region, s: State, u: State, t: nat)
    requires Inv(c, s) && t < |s.threads| && Critical(s.threads[t])
    requires u.threads == s.threads[t := Idle] && !u.locked
    requires AllLegal(Total(c), u.log) && Clean(c, u) && Addressed(c, u.log)
    ensures Inv(c, u)
  {
    hide Knows, Clean, AllLegal, Aligned;
  }

  /** A spinning thread takes the free lock. */
  lemma EnterKeeps(c: Region, s: State, u: State, t: nat)
    requires Inv(c, s) && t < |s.threads| && !s.locked
    requires |u.threads| == |s.threads| && u.threads == s.threads[t := u.threads[t]] && Critical(u.threads[t])
    requires u.locked && u.log == s.log && Knows(c, u, u.threads[t])
    ensures Inv(c, u)
  {
    hide Knows, Clean, AllLegal, Aligned;
  }

  /** An idle thread starts to spin. */
  lemma QuietKeeps(c: Region, s: State, t: nat, pc: Pc)
    requires Inv(c, s) && t < |s.threads| && s.threads[t].Idle?
    requires pc.AllocSpin? || (pc.FreeSpin? && ValidAddr(c, pc.addr))
    ensures Inv(c, Move(s, t, pc))
  {
    hide AllLegal, Aligned, Bits, Settled, Searched;
    var u := Move(s, t, pc);
    forall i | 0 <= i < |u.threads| && Critical(u.threads[i]) ensures Knows(c, u, u.threads[i]) {
      SameShared(c, s, u, u.threads[i]);
    }
    if exists i :: 0 <= i < |s.threads| && Critical(s.threads[i]) {
      var i :| 0 <= i < |s.threads| && Critical(s.threads[i]);
      assert Critical(u.threads[i]);
    }
    if !s.locked { SameClean(c, s, u); }
  }

  lemma SameShared(c: Region, s: State, u: State, pc: Pc)
    requires u.words == s.words && u.hint == s.hint && u.log == s.log && Knows(c, s, pc)
    ensures Knows(c, u, pc)
  {
    hide Searched, Apply, NextFrom, Represents, Replay;
  }

  lemma SameClean(c: Region, s: State, u: State)
    requires u.words == s.words && u.hint == s.hint && u.log == s.log && Clean(c, s)
    ensures Clean(c, u)
  {
    hide Represents, Replay;
  }

  // ---------- What each step establishes

  lemma SettledBounds(c: Region, s: State)
    requires AllLegal(Total(c), s.log)
    ensures forall p :: p in Settled(c, s).taken ==> p < Total(c)
    ensures if Total(c) == 0 then Settled(c, s).hint == 0 else Settled(c, s).hint < Total(c)
  {
    ReplayBounds(Total(c), s.log);
  }

  lemma BitMeaning(c: Region, s: State, taken: set<nat>, page: nat)
    requires Bits(c, s, taken) && page < Total(c)
    ensures page / 64 < |s.words| && page < 64 * |s.words|
    ensures Get(s.words, page) <==> page in taken
    ensures BitOf(s.words[page / 64], page % 64) <==> page in taken
  {
    hide BitOf;
  }

  lemma NextVisit(n: nat, hint: nat, k: nat, page: nat)
    requires hint < n && k < n && page == Visit(n, hint, k)
    ensures (if page + 1 >= n then 0 else page + 1) == Visit(n, hint, k + 1)
  {
    Wrap(n, hint + k);
    Wrap(n, hint + k + 1);
  }

  lemma ScanKeeps(c: Region, s: State, t: nat)
    requires Inv(c, s) && t < |s.threads| && s.threads[t].AllocScan?
    ensures Inv(c, ScanStep(c, s, t))
  {
    hide Mutex, AllLegal, Visit, NextFrom, Represents, Replay, Bitmap.BitOf;
    var AllocScan(idx, k, failed) := s.threads[t];
    var q, n := Settled(c, s), Total(c);
    var u := ScanStep(c, s, t);
    SettledBounds(c, s);
    if k < n {
      var page := if idx >= n then 0 else idx;
      VisitBound(n, q.hint, k - failed);
      BitMeaning(c, s, q.taken, page);
      if page in q.taken {
        NextVisit(n, q.hint, k - failed, page);
      }
    }
    InsideKeeps(c, s, u, t);
  }

  lemma FoundHere(c: Region, q: Pages, k: nat)
    requires k < Total(c) && Searched(Total(c), q, k) && Visit(Total(c), q.hint, k) !in q.taken
    ensures NextFrom(q.taken, Total(c), q.hint, 0) == Some(Visit(Total(c), q.hint, k))
  {
    NextFromSkips(q.taken, Total(c), q.hint, k);
  }

  lemma SwapKeeps(c: Region, s: State, t: nat, spurious: bool)
    requires Inv(c, s) && t < |s.threads| && s.threads[t].AllocSwap?
    ensures Inv(c, SwapStep(s, t, spurious))
    ensures !spurious ==> SwapStep(s, t, spurious).threads[t] == AllocStoreHint(s.threads[t].idx, s.threads[t].failed)
  {
    hide Mutex, AllLegal, Visit, NextFrom, Represents, Replay, Bitmap.SetIn;
    var AllocSwap(idx, k, failed, seen) := s.threads[t];
    var q, n := Settled(c, s), Total(c);
    var u := SwapStep(s, t, spurious);
    VisitBound(n, q.hint, k - failed);
    if !spurious {
      FoundHere(c, q, k - failed);
      SettledBounds(c, s);
      VisitsEachOnce(n, q.hint, idx, k - failed);
      BitMeaning(c, s, q.taken, idx);
      SetRepresents(s.words, n, q.taken, idx);
      assert u.words == Set(s.words, idx);
    }
    InsideKeeps(c, s, u, t);
  }

  lemma ClearKeeps(c: Region, s: State, t: nat)
    requires Inv(c, s) && t < |s.threads| && s.threads[t].FreeClear?
    ensures Inv(c, ClearStep(s, t))
    ensures ClearStep(s, t).threads[t]
      == FreeUnlock(s.threads[t].page, s.threads[t].page in Settled(c, s).taken, s.threads[t].addr)
  {
    hide Mutex, AllLegal, NextFrom, Represents, Replay, Bitmap.Clear, Bitmap.Get;
    var page := s.threads[t].page;
    var q, n := Settled(c, s), Total(c);
    BitMeaning(c, s, q.taken, page);
    ClearRepresents(s.words, n, q.taken, page);
    InsideKeeps(c, s, ClearStep(s, t), t);
  }

  lemma UnlockKeeps(c: Region, s: State, t: nat, e: Event)
    requires Inv(c, s) && t < |s.threads|
    requires (s.threads[t].AllocUnlock? && e == Alloc(s.threads[t].result, s.threads[t].failed,
        Answer(c, s.threads[t].result)))
          || (s.threads[t].FreeUnlock? && e == Free(s.threads[t].page, s.threads[t].ok, s.threads[t].addr))
    ensures Inv(c, Move(s.(locked := false, log := s.log + [e]), t, Idle))
  {
    hide Mutex, AllLegal, NextFrom, Represents, Replay;
    ReplaySnoc(Total(c), s.log, e);
    LeaveKeeps(c, s, Move(s.(locked := false, log := s.log + [e]), t, Idle), t);
  }

  lemma LoadHintKeeps(c: Region, s: State, t: nat)
    requires Inv(c, s) && t < |s.threads| && s.threads[t].AllocLoadHint?
    ensures Inv(c, Move(s, t, AllocScan(s.hint, 0, 0)))
  {
    hide Mutex, AllLegal, NextFrom, Represents, Replay;
    SettledBounds(c, s);
    if Total(c) > 0 {
      Wrap(Total(c), s.hint);
    }
    InsideKeeps(c, s, Move(s, t, AllocScan(s.hint, 0, 0)), t);
  }

  lemma StoreHintKeeps(c: Region, s: State, t: nat)
    requires Inv(c, s) && t < |s.threads| && s.threads[t].AllocStoreHint?
    ensures Inv(c, Step(c, s, t, Go))
  {
    hide Mutex, AllLegal, NextFrom, Represents, Replay;
    InsideKeeps(c, s, Step(c, s, t, Go), t);
  }

  lemma LockKeeps(c: Region, s: State, t: nat)
    requires Inv(c, s) && t < |s.threads| && (s.threads[t].AllocSpin? || s.threads[t].FreeSpin?) && !s.locked
    ensures Inv(c, Step(c, s, t, Go))
  {
    hide Mutex, AllLegal, NextFrom, Represents, Replay;
    if s.threads[t].FreeSpin? {
      ValidPage(c, s.threads[t].addr);
      AddressRoundTrip(c, s.threads[t].addr, PageOf(c, s.threads[t].addr));
    }
    EnterKeeps(c, s, Step(c, s, t, Go), t);
  }

  /** The addresses that `deallocate_page` accepts are exactly those of the pages, one address each. */
  lemma AddressRoundTrip(c: Region, addr: nat, page: nat)
    requires Aligned(c)
    ensures ValidAddr(c, addr) && PageOf(c, addr) == page <==> page < Total(c) && addr == AddrOf(c, page)
    ensures addr == AddrOf(c, page) ==> addr % 4096 == 0
  {
    if ValidAddr(c, addr) {
      ValidPage(c, addr);
    }
  }

  lemma ValidPage(c: Region, addr: nat)
    requires Aligned(c) && ValidAddr(c, addr)
    ensures PageOf(c, addr) < Total(c) && PageOf(c, addr) / 64 < WordCount(Total(c))
  {
  }

  /** Every step of every thread keeps the invariant. */
  lemma StepKeeps(c: Region, s: State, t: nat, a: Action)
    requires Inv(c, s)
    ensures Inv(c, Step(c, s, t, a))
  {
    hide Mutex, AllLegal, Knows, Clean, PageOf, ScanStep, SwapStep, ClearStep;
    if t < |s.threads| {
      match s.threads[t]
      case Idle =>
        match a {
          case StartAlloc => QuietKeeps(c, s, t, AllocSpin);
          case StartFree(addr) =>
            if ValidAddr(c, addr) {
              QuietKeeps(c, s, t, FreeSpin(addr));
            }
          case _ =>
        }
      case AllocSpin => if !s.locked && !a.Spurious? { LockKeeps(c, s, t); }
      case AllocLoadHint => LoadHintKeeps(c, s, t);
      case AllocScan(_, _, _) => ScanKeeps(c, s, t);
      case AllocSwap(_, _, _, _) => SwapKeeps(c, s, t, a.Spurious?);
      case AllocStoreHint(_, _) => StoreHintKeeps(c, s, t);
      case AllocUnlock(r, failed) => UnlockKeeps(c, s, t, Alloc(r, failed, Answer(c, r)));
      case FreeSpin(_) => if !s.locked && !a.Spurious? { LockKeeps(c, s, t); }
      case FreeClear(_, _) => ClearKeeps(c, s, t);
      case FreeUnlock(page, ok, addr) => UnlockKeeps(c, s, t, Free(page, ok, addr));
    }
  }

  lemma InitInv(c: Region, n: nat)
    requires Aligned(c)
    ensures Inv(c, Init(c, n))
  {
    hide Represents;
    var s := Init(c, n);
    ZeroRepresents(s.words, Total(c));
    assert forall t :: 0 <= t < |s.threads| ==> !Critical(s.threads[t]);
  }

  lemma {:induction false} RunKeeps(c: Region, s: State, schedule: seq<(nat, Action)>)
    requires Inv(c, s)
    ensures Inv(c, Run(c, s, schedule))
    decreases |schedule|
  {
    hide Inv, Step;
    if schedule != [] {
      RunKeeps(c, s, schedule[..|schedule| - 1]);
      var last := schedule[|schedule| - 1];
      StepKeeps(c, Run(c, s, schedule[..|schedule| - 1]), last.0, last.1);
    }
  }

  // ---------- What holds in every run

  /**
    Over every interleaving of any number of threads, the lock is held exactly when one thread is in its critical
    section, every finished operation has the result of the sequential allocator, and between operations the bits
    and the hint are exactly those the sequential allocator would have.
   */
  lemma RunIsLinearizable(c: Region, n: nat, schedule: seq<(nat, Action)>)
    requires Aligned(c)
    ensures var s := Run(c, Init(c, n), schedule);
      && Mutex(s) && AllLegal(Total(c), s.log)
      && (!s.locked ==>
            Represents(s.words, Total(c), Replay(Total(c), s.log).taken) && s.hint == Replay(Total(c), s.log).hint)
  {
    hide Run, Mutex, AllLegal, Represents, Replay, Init;
    InitInv(c, n);
    RunKeeps(c, Init(c, n), schedule);
  }

  /** Whenever the lock is free, the set bits are exactly the pages handed out and not given back. */
  lemma BitsAreOwned(c: Region, n: nat, schedule: seq<(nat, Action)>, p: nat)
    requires Aligned(c) && p < Total(c)
    ensures var s := Run(c, Init(c, n), schedule);
      !s.locked ==> p < 64 * |s.words| && (Get(s.words, p) <==> Holds(s.log, p))
  {
    hide Run, Mutex, AllLegal, Replay, Init, Bitmap.Get;
    RunIsLinearizable(c, n, schedule);
    TakenAreHeld(Total(c), Run(c, Init(c, n), schedule).log, p);
  }

  /** No page is handed out twice without a successful deallocation in between. */
  lemma NoPageTwice(c: Region, n: nat, schedule: seq<(nat, Action)>, p: nat, i: nat, j: nat)
    requires Aligned(c)
    requires i < j && HandedOut(Run(c, Init(c, n), schedule).log, p, i)
        && HandedOut(Run(c, Init(c, n), schedule).log, p, j)
    ensures var log := Run(c, Init(c, n), schedule).log;
      exists k :: i < k < j && GivenBack(log, p, k)
  {
    hide Run, Mutex, Replay, Init;
    RunIsLinearizable(c, n, schedule);
    NoDoubleHandOut(Total(c), Run(c, Init(c, n), schedule).log, p, i, j);
  }

  /**
    An allocation hands out the first free page of the circular search from the hint. It returns nothing exactly when
    every free page lies so late in the search that the failed compare-and-swaps use up the rounds before it; without
    such a failure, exactly when every page is taken.
   */
  lemma AllocationResult(c: Region, n: nat, schedule: seq<(nat, Action)>, i: nat)
    requires Aligned(c)
    requires i < |Run(c, Init(c, n), schedule).log| && Run(c, Init(c, n), schedule).log[i].Alloc?
    ensures var log := Run(c, Init(c, n), schedule).log;
      var before := Replay(Total(c), log[..i]);
      var r, failed, free := log[i].result, log[i].failed, FreePages(Total(c), before.taken);
      && (Total(c) > 0 ==> before.hint < Total(c))
      && (r.Some? ==> r.value in free && forall p :: p in free ==>
            VisitOf(Total(c), before.hint, r.value) <= VisitOf(Total(c), before.hint, p))
      && (r == None <==> forall p :: p in free ==> Total(c) <= failed + VisitOf(Total(c), before.hint, p))
      && (r == None ==> |free| <= failed)
      && (failed == 0 ==> (r == None <==> free == {}))
  {
    hide Run, Mutex, Init, Legal, Replay;
    RunIsLinearizable(c, n, schedule);
    var log := Run(c, Init(c, n), schedule).log;
    LegalAt(Total(c), log, i);
    LegalAlloc(Total(c), Replay(Total(c), log[..i]), log[i].result, log[i].failed, log[i].answer);
  }

  /** The only thread of a region of one page. */
  function Solo(locked: bool, pc: Pc, log: seq<Event>): State {
    State([0], 0, locked, [pc], log)
  }

  lemma MissSteps()
    ensures var c := Region(0, 4096);
      && Init(c, 1) == Solo(false, Idle, [])
      && Step(c, Solo(false, Idle, []), 0, StartAlloc) == Solo(false, AllocSpin, [])
      && Step(c, Solo(false, AllocSpin, []), 0, Go) == Solo(true, AllocLoadHint, [])
      && Step(c, Solo(true, AllocLoadHint, []), 0, Go) == Solo(true, AllocScan(0, 0, 0), [])
      && Step(c, Solo(true, AllocScan(0, 0, 0), []), 0, Go) == Solo(true, AllocSwap(0, 0, 0, 0), [])
      && Step(c, Solo(true, AllocSwap(0, 0, 0, 0), []), 0, Spurious) == Solo(true, AllocScan(0, 1, 1), [])
      && Step(c, Solo(true, AllocScan(0, 1, 1), []), 0, Go) == Solo(true, AllocUnlock(None, 1), [])
      && Step(c, Solo(true, AllocUnlock(None, 1), []), 0, Go) == Solo(false, Idle, [Alloc(None, 1, None)])
  {
    hide Bitmap.BitOf, Bitmap.SetIn;
    ZeroBitOf(0);
  }

  lemma OnePageFree()
    ensures FreePages(Total(Region(0, 4096)), Replay(Total(Region(0, 4096)), []).taken) == {0}
  {
  }

  /** One spurious failure can make an allocation return nothing although a page is free. */
  lemma SpuriousMiss() returns (schedule: seq<(nat, Action)>)
    ensures var c := Region(0, 4096);
      && Run(c, Init(c, 1), schedule).log == [Alloc(None, 1, None)]
      && FreePages(Total(c), Replay(Total(c), []).taken) == {0}
  {
    hide *;
    OnePageFree();
    MissSteps();
    var c := Region(0, 4096);
    schedule := [];
    schedule := Extend(c, schedule, StartAlloc, Solo(false, Idle, []), Solo(false, AllocSpin, []));
    schedule := Extend(c, schedule, Go, Solo(false, AllocSpin, []), Solo(true, AllocLoadHint, []));
    schedule := Extend(c, schedule, Go, Solo(true, AllocLoadHint, []), Solo(true, AllocScan(0, 0, 0), []));
    schedule := Extend(c, schedule, Go, Solo(true, AllocScan(0, 0, 0), []), Solo(true, AllocSwap(0, 0, 0, 0), []));
    schedule := Extend(c, schedule, Spurious, Solo(true, AllocSwap(0, 0, 0, 0), []),
      Solo(true, AllocScan(0, 1, 1), []));
    schedule := Extend(c, schedule, Go, Solo(true, AllocScan(0, 1, 1), []), Solo(true, AllocUnlock(None, 1), []));
    schedule := Extend(c, schedule, Go, Solo(true, AllocUnlock(None, 1), []),
      Solo(false, Idle, [Alloc(None, 1, None)]));
    SoloLog(false, Idle, [Alloc(None, 1, None)]);
  }

  lemma Extend(c: Region, schedule: seq<(nat, Action)>, a: Action, m: State, u: State)
      returns (longer: seq<(nat, Action)>)
    requires (if schedule == [] then Init(c, 1) else Run(c, Init(c, 1), schedule)) == m && Step(c, m, 0, a) == u
    ensures longer != [] && Run(c, Init(c, 1), longer) == u
  {
    longer := schedule + [(0, a)];
    RunSnoc(c, Init(c, 1), schedule, (0, a));
  }

  lemma SoloLog(locked: bool, pc: Pc, log: seq<Event>)
    ensures Solo(locked, pc, log).log == log
  {
  }

  lemma RunSnoc(c: Region, s: State, schedule: seq<(nat, Action)>, a: (nat, Action))
    ensures Run(c, s, schedule + [a]) == Step(c, Run(c, s, schedule), a.0, a.1)
    ensures Run(c, s, []) == s
  {
    assert (schedule + [a])[..|schedule|] == schedule;
  }

  /** `deallocate_page` succeeds exactly on a page that was taken when it took effect. */
  lemma FreeOkIffTaken(c: Region, n: nat, schedule: seq<(nat, Action)>, i: nat)
    requires Aligned(c)
    requires i < |Run(c, Init(c, n), schedule).log| && Run(c, Init(c, n), schedule).log[i].Free?
    ensures var log := Run(c, Init(c, n), schedule).log;
      log[i].page < Total(c) && (log[i].ok <==> Holds(log[..i], log[i].page))
  {
    hide Run, Mutex, Init;
    RunIsLinearizable(c, n, schedule);
    var log := Run(c, Init(c, n), schedule).log;
    LegalAt(Total(c), log, i);
    TakenAreHeld(Total(c), log[..i], log[i].page);
  }

  lemma {:induction false} LegalAt(total: nat, log: seq<Event>, i: nat)
    requires AllLegal(total, log) && i < |log|
    ensures AllLegal(total, log[..i]) && Legal(total, Replay(total, log[..i]), log[i])
    ensures total == 0 || Replay(total, log[..i]).hint < total
    decreases |log|
  {
    if i < |log| - 1 {
      LegalAt(total, log[..|log| - 1], i);
      assert log[..|log| - 1][..i] == log[..i];
    } else {
      ReplayBounds(total, log[..i]);
    }
  }

  /**
    In every reachable state the scan stays inside the bitmap, the compare-and-swap meets the word it read, the
    deallocated page lies inside the bitmap, and the hint names a page: the fallback branches are never taken.
   */
  lemma NoFallbackTaken(c: Region, n: nat, schedule: seq<(nat, Action)>, t: nat)
    requires Aligned(c) && t < |Run(c, Init(c, n), schedule).threads|
    ensures var s := Run(c, Init(c, n), schedule);
      match s.threads[t]
      case AllocScan(idx, k, _) =>
        k <= Total(c) && (k < Total(c) ==> (if idx >= Total(c) then 0 else idx) / 64 < |s.words|)
      case AllocSwap(idx, _, _, seen) => idx / 64 < |s.words| && s.words[idx / 64] == seen
      case FreeClear(page, _) => page / 64 < |s.words|
      case _ => true
    ensures Total(c) > 0 ==> Run(c, Init(c, n), schedule).hint < Total(c)
  {
    hide Run, Mutex, AllLegal, Replay, Init, Searched, NextFrom, Visit, Bitmap.Get;
    InitInv(c, n);
    RunKeeps(c, Init(c, n), schedule);
    var s := Run(c, Init(c, n), schedule);
    SettledBounds(c, s);
    if Total(c) > 0 { HintBound(c, s); }
    var q := Settled(c, s);
    if s.threads[t].AllocScan? && s.threads[t].k < Total(c) {
      VisitBound(Total(c), q.hint, s.threads[t].k - s.threads[t].failed);
    }
  }

  lemma HintBound(c: Region, s: State)
    requires Inv(c, s) && Total(c) > 0
    ensures s.hint < Total(c)
  {
    hide AllLegal, Replay, Searched, NextFrom, Represents, Visit;
    SettledBounds(c, s);
    if s.locked {
      var t :| 0 <= t < |s.threads| && Critical(s.threads[t]);
      assert Knows(c, s, s.threads[t]);
    }
  }
}
