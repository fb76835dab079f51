/**
  The page allocator of src/syscall/core.rs as its callers see it: the addresses they get and give back, over every
  interleaving, and what a thread that is left alone achieves.
 */
module PageAddresses {
  import opened Options
  import opened Bitmap
  import opened SequentialPages
  import opened PageAllocator

  /** Event `i` answered an allocation with address `a`. */
  predicate Answered(log: seq<Event>, a: nat, i: int) {
    0 <= i < |log| && log[i].Alloc? && log[i].answer == Some(a)
  }

  /** Event `k` is a successful deallocation to which address `a` was passed. */
  predicate Returned(log: seq<Event>, a: nat, k: int) {
    0 <= k < |log| && log[k].Free? && log[k].ok && log[k].addr == a
  }

  /** Address `a` was answered and not successfully passed to a deallocation since. */
  ghost predicate HeldAddr(log: seq<Event>, a: nat) {
    exists i :: Answered(log, a, i) && forall k :: i < k ==> !Returned(log, a, k)
  }

  lemma SameAddr(c: Region, p: nat, q: nat)
    ensures AddrOf(c, p) == AddrOf(c, q) <==> p == q
  {
  }

  lemma PageEvents(c: Region, log: seq<Event>, p: nat)
    requires Addressed(c, log)
    ensures forall i :: Answered(log, AddrOf(c, p), i) <==> HandedOut(log, p, i)
    ensures forall k :: Returned(log, AddrOf(c, p), k) <==> GivenBack(log, p, k)
  {
    hide AddrOf;
    forall i ensures Answered(log, AddrOf(c, p), i) <==> HandedOut(log, p, i) {
      if 0 <= i < |log| && log[i].Alloc? && log[i].result.Some? {
        SameAddr(c, log[i].result.value, p);
      }
    }
    forall k ensures Returned(log, AddrOf(c, p), k) <==> GivenBack(log, p, k) {
      if 0 <= k < |log| && log[k].Free? {
        SameAddr(c, log[k].page, p);
      }
    }
  }

  lemma HeldPages(c: Region, log: seq<Event>, p: nat)
    requires Addressed(c, log)
    ensures HeldAddr(log, AddrOf(c, p)) <==> Holds(log, p)
  {
    hide AddrOf, Answered, HandedOut, Returned, GivenBack;
    PageEvents(c, log, p);
  }

  lemma RunAddressed(c: Region, n: nat, schedule: seq<(nat, Action)>)
    requires Aligned(c)
    ensures Addressed(c, Run(c, Init(c, n), schedule).log) && AllLegal(Total(c), Run(c, Init(c, n), schedule).log)
  {
    hide Run, Init, Mutex, AllLegal;
    InitInv(c, n);
    RunKeeps(c, Init(c, n), schedule);
  }

  /** Every address answered is a whole number of pages into the region. */
  lemma AnswersAreInside(c: Region, n: nat, schedule: seq<(nat, Action)>, a: nat, i: nat)
    requires Aligned(c) && Answered(Run(c, Init(c, n), schedule).log, a, i)
    ensures c.start <= a && a + 4096 <= c.end && (a - c.start) % 4096 == 0
  {
    hide Run, Init, AllLegal;
    RunAddressed(c, n, schedule);
    var log := Run(c, Init(c, n), schedule).log;
    LegalAt(Total(c), log, i);
    LegalAlloc(Total(c), Replay(Total(c), log[..i]), log[i].result, log[i].failed, log[i].answer);
    assert log[i].answer == Answer(c, log[i].result);
    AddressRoundTrip(c, a, log[i].result.value);
  }

  /** No address is answered twice unless it was successfully passed to a deallocation in between. */
  lemma NoAddressTwice(c: Region, n: nat, schedule: seq<(nat, Action)>, a: nat, i: nat, j: nat)
    requires Aligned(c) && i < j
    requires Answered(Run(c, Init(c, n), schedule).log, a, i) && Answered(Run(c, Init(c, n), schedule).log, a, j)
    ensures exists k :: i < k < j && Returned(Run(c, Init(c, n), schedule).log, a, k)
  {
    hide Run, Init, AllLegal, AddrOf;
    RunAddressed(c, n, schedule);
    var log := Run(c, Init(c, n), schedule).log;
    assert log[i].answer == Answer(c, log[i].result);
    var p := log[i].result.value;
    PageEvents(c, log, p);
    NoPageTwice(c, n, schedule, p, i, j);
    var k :| i < k < j && GivenBack(log, p, k);
    assert Returned(log, a, k);
  }

  /** A deallocation succeeds exactly when the address passed to it is held when it takes effect. */
  lemma FreeOkIffHeld(c: Region, n: nat, schedule: seq<(nat, Action)>, i: nat)
    requires Aligned(c)
    requires i < |Run(c, Init(c, n), schedule).log| && Run(c, Init(c, n), schedule).log[i].Free?
    ensures var log := Run(c, Init(c, n), schedule).log;
      log[i].ok <==> HeldAddr(log[..i], log[i].addr)
  {
    hide Run, Init, AllLegal, AddrOf;
    RunAddressed(c, n, schedule);
    var log := Run(c, Init(c, n), schedule).log;
    FreeOkIffTaken(c, n, schedule, i);
    assert log[i].addr == AddrOf(c, log[i].page);
    HeldPages(c, log[..i], log[i].page);
  }

  /** Whenever the lock is free, a bit is set exactly when the address of its page is held. */
  lemma BitsAreHeld(c: Region, n: nat, schedule: seq<(nat, Action)>, a: nat)
    requires Aligned(c) && ValidAddr(c, a)
    ensures var s := Run(c, Init(c, n), schedule);
      !s.locked ==>
        && (a - c.start) / 4096 < 64 * |s.words|
        && (Get(s.words, (a - c.start) / 4096) <==> HeldAddr(s.log, a))
  {
    hide Run, Init, AllLegal, AddrOf, Bitmap.Get;
    RunAddressed(c, n, schedule);
    ValidPage(c, a);
    AddressRoundTrip(c, a, PageOf(c, a));
    BitsAreOwned(c, n, schedule, PageOf(c, a));
    HeldPages(c, Run(c, Init(c, n), schedule).log, PageOf(c, a));
  }

  // ---------- An operation keeps to its address

  predicate IsFree(pc: Pc) {
    pc.FreeSpin? || pc.FreeClear? || pc.FreeUnlock?
  }

  lemma OneThread(c: Region, s: State, t: nat, a: Action)
    requires t < |s.threads|
    ensures var u := Step(c, s, t, a); |u.threads| == |s.threads| && u.threads == s.threads[t := u.threads[t]]
  {
  }

  /**
    In any state at all, a deallocation starts exactly when its address lies in the region at a page boundary, keeps
    the address it was given, and is logged with it; a step moves no other thread.
   */
  lemma FreeKeepsAddress(c: Region, s: State, t: nat, a: Action)
    requires t < |s.threads|
    ensures var u := Step(c, s, t, a);
      && |u.threads| == |s.threads| && u.threads == s.threads[t := u.threads[t]]
      && (s.threads[t] == Idle && a.StartFree? ==>
            if c.start <= a.addr < c.end && (a.addr - c.start) % 4096 == 0
            then u == s.(threads := u.threads) && u.threads[t] == FreeSpin(a.addr)
            else u == s)
      && (IsFree(s.threads[t]) ==>
            (IsFree(u.threads[t]) && u.threads[t].addr == s.threads[t].addr && u.log == s.log)
            || (u.threads[t] == Idle && |u.log| == |s.log| + 1 && u.log[..|s.log|] == s.log
                && u.log[|s.log|].Free? && u.log[|s.log|].addr == s.threads[t].addr))
  {
    hide ScanStep, SwapStep, Bitmap.Clear, Bitmap.Get, PageOf, Total, Answer;
    OneThread(c, s, t, a);
  }

  // ---------- A thread left alone

  lemma {:induction false} RunConcat(c: Region, s: State, first: seq<(nat, Action)>, second: seq<(nat, Action)>)
    ensures Run(c, s, first + second) == Run(c, Run(c, s, first), second)
    decreases |second|
  {
    hide Step;
    if second == [] {
      assert first + second == first;
    } else {
      var prefix, last := second[..|second| - 1], second[|second| - 1];
      RunConcat(c, s, first, prefix);
      RunSnoc(c, s, first + prefix, last);
      RunSnoc(c, Run(c, s, first), prefix, last);
      assert first + second == first + prefix + [last];
      assert second == prefix + [last];
    }
  }

  lemma RunOne(c: Region, s: State, a: (nat, Action))
    ensures Run(c, s, [a]) == Step(c, s, a.0, a.1)
  {
    RunSnoc(c, s, [], a);
    assert [] + [a] == [a];
  }

  lemma MoveTwice(s: State, t: nat, p: Pc, q: Pc)
    requires t < |s.threads|
    ensures Move(Move(s, t, p), t, q) == Move(s, t, q) && (s.threads[t] == q ==> Move(s, t, q) == s)
  {
    assert s.threads[t := p][t := q] == s.threads[t := q];
  }

  function FreeSchedule(t: nat, addr: nat): seq<(nat, Action)> {
    [(t, StartFree(addr)), (t, Go), (t, Go), (t, Go)]
  }

  /** A deallocation that is left alone clears the bit of its page and no other, and reports what it found. */
  lemma FreeAlone(c: Region, s: State, t: nat, page: nat)
    requires Inv(c, s) && t < |s.threads| && s.threads[t] == Idle && !s.locked && page < Total(c)
    ensures page < 64 * |s.words|
    ensures Run(c, s, FreeSchedule(t, AddrOf(c, page))) ==
      s.(words := Clear(s.words, page), log := s.log + [Free(page, Get(s.words, page), AddrOf(c, page))])
  {
    hide Run, Inv, Bitmap.Clear, Bitmap.Get, AddrOf;
    var addr := AddrOf(c, page);
    InWords(c, s, page);
    StartIs(c, page);
    var l := s.(locked := true);
    var w := l.(words := Clear(s.words, page));
    var x1, go := [(t, StartFree(addr))], (t, Go);
    RunOne(c, s, (t, StartFree(addr)));
    assert Run(c, s, x1) == Move(s, t, FreeSpin(addr));
    RunSnoc(c, s, x1, go);
    MoveTwice(l, t, FreeSpin(addr), FreeClear(page, addr));
    assert Run(c, s, x1 + [go]) == Move(l, t, FreeClear(page, addr));
    RunSnoc(c, s, x1 + [go], go);
    var pc := FreeUnlock(page, Get(s.words, page), addr);
    MoveTwice(w, t, FreeClear(page, addr), pc);
    assert Run(c, s, x1 + [go] + [go]) == Move(w, t, pc);
    RunSnoc(c, s, x1 + [go] + [go], go);
    MoveTwice(w.(locked := false, log := s.log + [Free(page, Get(s.words, page), addr)]), t, pc, Idle);
    assert x1 + [go] + [go] + [go] == FreeSchedule(t, addr);
  }

  lemma InWords(c: Region, s: State, page: nat)
    requires Inv(c, s) && !s.locked && page < Total(c)
    ensures page / 64 < |s.words| && page < 64 * |s.words|
  {
    hide Mutex, AllLegal, Knows, Bitmap.Get;
  }

  lemma StartIs(c: Region, page: nat)
    requires page < Total(c)
    ensures ValidAddr(c, AddrOf(c, page)) && c.start <= AddrOf(c, page) && PageOf(c, AddrOf(c, page)) == page
  {
  }

  /** The state `u` is `s` with thread `t` idle, the lock free and one more allocation logged, without a failed swap. */
  ghost predicate Finished(s: State, u: State, t: nat) {
    && t < |s.threads| && u.threads == s.threads[t := Idle] && !u.locked
    && |u.log| == |s.log| + 1 && u.log[..|s.log|] == s.log
    && u.log[|s.log|].Alloc? && u.log[|s.log|].failed == 0
  }

  lemma UnlockAlone(c: Region, s: State, t: nat)
    requires Inv(c, s) && t < |s.threads| && s.threads[t].AllocUnlock? && s.threads[t].failed == 0
    ensures Inv(c, Step(c, s, t, Go)) && Finished(s, Step(c, s, t, Go), t)
  {
    StepKeeps(c, s, t, Go);
  }

  lemma StoreAlone(c: Region, s: State, t: nat)
    requires Inv(c, s) && t < |s.threads| && s.threads[t].AllocStoreHint? && s.threads[t].failed == 0
    ensures Inv(c, Run(c, s, [(t, Go), (t, Go)])) && Finished(s, Run(c, s, [(t, Go), (t, Go)]), t)
  {
    hide Inv, Run;
    var u := Step(c, s, t, Go);
    StepKeeps(c, s, t, Go);
    RunOne(c, s, (t, Go));
    RunSnoc(c, s, [(t, Go)], (t, Go));
    assert [(t, Go)] + [(t, Go)] == [(t, Go), (t, Go)];
    assert u.threads[t].AllocUnlock? && u.threads[t].failed == 0 && u.log == s.log;
    UnlockAlone(c, u, t);
    FinishedEarlier(s, u, Step(c, u, t, Go), t);
  }

  /** What is finished from a later point of the operation is finished from an earlier one. */
  lemma FinishedEarlier(s: State, m: State, u: State, t: nat)
    requires t < |s.threads| && |m.threads| == |s.threads| && m.threads == s.threads[t := m.threads[t]]
        && m.log == s.log
    requires Finished(m, u, t)
    ensures Finished(s, u, t)
  {
    assert m.threads[t := Idle] == s.threads[t := Idle];
  }

  lemma SwapAlone(c: Region, s: State, t: nat)
    requires Inv(c, s) && t < |s.threads| && s.threads[t].AllocSwap? && s.threads[t].failed == 0
    ensures var go := (t, Go);
      Inv(c, Run(c, s, [go, go, go])) && Finished(s, Run(c, s, [go, go, go]), t)
  {
    hide Inv, Run, SwapStep;
    var go, u := (t, Go), Step(c, s, t, Go);
    StepKeeps(c, s, t, Go);
    SwapKeeps(c, s, t, false);
    FreeKeepsAddress(c, s, t, Go);
    SwapLog(s, t);
    StoreAlone(c, u, t);
    RunOne(c, s, go);
    RunConcat(c, s, [go], [go, go]);
    assert [go] + [go, go] == [go, go, go];
    FinishedEarlier(s, u, Run(c, s, [go, go, go]), t);
  }

  lemma SwapLog(s: State, t: nat)
    requires t < |s.threads| && s.threads[t].AllocSwap?
    ensures SwapStep(s, t, false).log == s.log
  {
  }

  lemma ScanSteps(c: Region, s: State, t: nat)
    requires t < |s.threads| && s.threads[t].AllocScan? && s.threads[t].failed == 0
    ensures var u := ScanStep(c, s, t);
      && |u.threads| == |s.threads| && u.threads == s.threads[t := u.threads[t]] && u.log == s.log
      && (u.threads[t].AllocUnlock? || u.threads[t].AllocSwap? || u.threads[t].AllocScan?) && u.threads[t].failed == 0
      && (u.threads[t].AllocScan? ==> u.threads[t].k == s.threads[t].k + 1 && s.threads[t].k < Total(c))
  {
  }

  /** A search that is left alone ends. */
  lemma {:induction false} ScanAlone(c: Region, s: State, t: nat) returns (more: seq<(nat, Action)>)
    requires Inv(c, s) && t < |s.threads| && s.threads[t].AllocScan? && s.threads[t].failed == 0
    ensures Inv(c, Run(c, s, more)) && Finished(s, Run(c, s, more), t)
    decreases Total(c) - s.threads[t].k
  {
    hide Inv, Run, ScanStep, Finished;
    var go, u := (t, Go), Step(c, s, t, Go);
    StepKeeps(c, s, t, Go);
    ScanSteps(c, s, t);
    RunOne(c, s, go);
    if u.threads[t].AllocUnlock? {
      UnlockAlone(c, u, t);
      RunOne(c, u, go);
      more := [go];
    } else if u.threads[t].AllocSwap? {
      SwapAlone(c, u, t);
      more := [go, go, go];
    } else {
      more := ScanAlone(c, u, t);
    }
    RunConcat(c, s, [go], more);
    FinishedEarlier(s, u, Run(c, u, more), t);
    more := [go] + more;
  }

  /**
    In any reachable state with the lock free, an allocation that is left alone ends: it takes the first free page of
    the search from the hint, or nothing exactly when none is free, and answers with the address of that page.
   */
  lemma AllocateAlone(c: Region, n: nat, before: seq<(nat, Action)>, t: nat) returns (more: seq<(nat, Action)>)
    requires Aligned(c)
    requires var s := Run(c, Init(c, n), before); t < |s.threads| && s.threads[t] == Idle && !s.locked
    ensures var s, u := Run(c, Init(c, n), before), Run(c, Init(c, n), before + more);
      && u.threads == s.threads && !u.locked && |u.log| == |s.log| + 1 && u.log[..|s.log|] == s.log
      && u.log[|s.log|].Alloc? && var r, q := u.log[|s.log|].result, Replay(Total(c), s.log);
        var free := FreePages(Total(c), q.taken);
        && (r == None <==> free == {})
        && u.log[|s.log|].answer == (if r == None then None else Some(c.start + r.value * 4096))
        && (Total(c) > 0 ==> q.hint < Total(c))
        && (r.Some? ==> r.value in free && forall p :: p in free ==>
              VisitOf(Total(c), q.hint, r.value) <= VisitOf(Total(c), q.hint, p))
  {
    hide Inv, Run, Init, Replay, FreePages;
    InitInv(c, n);
    RunKeeps(c, Init(c, n), before);
    var s := Run(c, Init(c, n), before);
    var x := [(t, StartAlloc), (t, Go), (t, Go)];
    var u := AllocStarts(c, s, t);
    var rest := ScanAlone(c, u, t);
    RunConcat(c, s, x, rest);
    RunConcat(c, Init(c, n), before, x + rest);
    FinishedEarlier(s, u, Run(c, u, rest), t);
    assert s.threads[t := Idle] == s.threads;
    more := x + rest;
    AllocationResult(c, n, before + more, |s.log|);
    RunAddressed(c, n, before + more);
  }

  lemma AllocStarts(c: Region, s: State, t: nat) returns (u: State)
    requires Inv(c, s) && t < |s.threads| && s.threads[t] == Idle && !s.locked
    ensures u == Run(c, s, [(t, StartAlloc), (t, Go), (t, Go)]) && Inv(c, u)
    ensures u == s.(locked := true, threads := s.threads[t := AllocScan(s.hint, 0, 0)])
  {
    hide Inv, Run;
    var go, l := (t, Go), s.(locked := true);
    u := Move(l, t, AllocScan(s.hint, 0, 0));
    RunOne(c, s, (t, StartAlloc));
    RunSnoc(c, s, [(t, StartAlloc)], go);
    MoveTwice(l, t, AllocSpin, AllocLoadHint);
    RunSnoc(c, s, [(t, StartAlloc)] + [go], go);
    MoveTwice(l, t, AllocLoadHint, AllocScan(s.hint, 0, 0));
    assert [(t, StartAlloc)] + [go] + [go] == [(t, StartAlloc), go, go];
    RunKeeps(c, s, [(t, StartAlloc), go, go]);
  }

  // ---------- The hint

  /** Event `i` is the last that handed out a page. */
  ghost predicate LastGrant(log: seq<Event>, i: int, p: nat) {
    HandedOut(log, p, i) && forall k, q: nat :: i < k ==> !HandedOut(log, q, k)
  }

  lemma {:induction false} HintOfReplay(total: nat, log: seq<Event>)
    ensures forall i, p: nat :: LastGrant(log, i, p) ==> Replay(total, log).hint == if total == 0 then 0
        else (p + 1) % total
    ensures (forall i, p: nat :: !HandedOut(log, p, i)) ==> Replay(total, log).hint == 0
    decreases |log|
  {
    if log != [] {
      var prefix, last := log[..|log| - 1], |log| - 1;
      HintOfReplay(total, prefix);
      forall i, p: nat | LastGrant(log, i, p) ensures Replay(total, log).hint == if total == 0 then 0
        else (p + 1) % total {
        if i < last {
          assert !(log[last].Alloc? && log[last].result.Some? && HandedOut(log, log[last].result.value, last));
          GrantPrefix(log, i, p);
        }
      }
      if forall i, p: nat :: !HandedOut(log, p, i) {
        assert !(log[last].Alloc? && log[last].result.Some? && HandedOut(log, log[last].result.value, last));
        forall i, p: nat ensures !HandedOut(prefix, p, i) {
          assert !HandedOut(log, p, i);
        }
      }
    }
  }

  lemma GrantPrefix(log: seq<Event>, i: int, p: nat)
    requires log != [] && LastGrant(log, i, p) && i < |log| - 1
    ensures LastGrant(log[..|log| - 1], i, p)
  {
    var prefix := log[..|log| - 1];
    forall k, q: nat | i < k ensures !HandedOut(prefix, q, k) {
      assert !HandedOut(log, q, k);
    }
  }

  /** Whenever the lock is free, the next search starts after the page handed out last, or at page 0 if none was. */
  lemma HintFollows(c: Region, n: nat, schedule: seq<(nat, Action)>)
    requires Aligned(c) && !Run(c, Init(c, n), schedule).locked
    ensures var s := Run(c, Init(c, n), schedule);
      && (forall i, p: nat :: LastGrant(s.log, i, p) && Total(c) > 0 ==>
            s.hint == if p + 1 == Total(c) then 0 else p + 1)
      && ((forall i, p: nat :: !HandedOut(s.log, p, i)) ==> s.hint == 0)
  {
    hide Run, Init, Replay, AllLegal, Mutex, HandedOut, LastGrant;
    RunIsLinearizable(c, n, schedule);
    var s := Run(c, Init(c, n), schedule);
    HintOfReplay(Total(c), s.log);
    forall i, p: nat | LastGrant(s.log, i, p) && Total(c) > 0 ensures (p + 1) % Total(c) == if p + 1 == Total(c) then 0
      else p + 1 {
      GrantBound(c, n, schedule, i, p);
      Wrap(Total(c), p + 1);
    }
  }

  lemma GrantBound(c: Region, n: nat, schedule: seq<(nat, Action)>, i: int, p: nat)
    requires Aligned(c) && LastGrant(Run(c, Init(c, n), schedule).log, i, p)
    ensures p < Total(c)
  {
    hide Run, Init, Replay, Mutex;
    AllocationResult(c, n, schedule, i);
  }
}
