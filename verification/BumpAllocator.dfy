/**
  `PageAllocator` of src/syscall/core.rs, the bump allocator, shared by any number of threads: each step is one
  atomic access under sequential consistency. `set_current` stores without taking the lock.
 */
module BumpAllocator {
  import opened Options

  const USIZE_MAX: nat := 0xFFFF_FFFF_FFFF_FFFF

  function SaturatingAdd(a: nat, b: nat): nat {
    if a + b > USIZE_MAX then USIZE_MAX else a + b
  }

  datatype Bounds = Bounds(start: nat, end: nat)

  /** A region handed out: its first byte and its length. */
  datatype Region = Region(base: nat, size: nat)

  /** Where a thread stands. `since` is the number of `set_current` stores when the thread loaded `seen`. */
  datatype Pc =
    | Idle
    | Spin(size: nat)
    | Load(size: nat)
    | Check(size: nat, seen: nat, since: nat)
    | Swap(size: nat, seen: nat, since: nat)
    | Unlock(size: nat, seen: nat, result: Option<nat>)
    | Retry(size: nat, since: nat)
    | Store(value: nat)

  /** The answer to a request for `size` bytes, made with `current` seen as `seen`. */
  datatype Reply = Reply(size: nat, seen: nat, base: Option<nat>)

  /**
    `regions` are those handed out, oldest first; `sets` counts the `set_current` stores; `replies` are the answers
    given, oldest first.
   */
  datatype State = State(current: nat, locked: bool, threads: seq<Pc>, regions: seq<Region>, sets: nat,
    replies: seq<Reply>)

  datatype Action = StartAllocate(count: nat) | StartSet(value: nat) | Go

  function Move(s: State, t: nat, pc: Pc): State
    requires t < |s.threads|
  {
    s.(threads := s.threads[t := pc])
  }

  /** An idle thread begins an operation; a zero count and an out-of-bounds value are refused at once. */
  function Begin(b: Bounds, s: State, t: nat, a: Action): State
    requires t < |s.threads|
  {
    match a
    case StartAllocate(count) =>
      if 0 < count && count * 4096 <= USIZE_MAX then Move(s, t, Spin(count * 4096)) else s
    case StartSet(value) => if b.start <= value <= b.end then Move(s, t, Store(value)) else s
    case Go => s
  }

  function Step(b: Bounds, s: State, t: nat, a: Action): State {
    if t >= |s.threads| then s
    else
      match s.threads[t]
      case Idle => Begin(b, s, t, a)
      case Spin(size) => if s.locked then s else Move(s.(locked := true), t, Load(size))
      case Load(size) => Move(s, t, Check(size, s.current, s.sets))
      case Check(size, seen, since) =>
        if SaturatingAdd(seen, size) > b.end
        then Move(s, t, Unlock(size, seen, None))
        else Move(s, t, Swap(size, seen, since))
      case Swap(size, seen, since) =>
        if s.current == seen
        then
          var u := s.(current := SaturatingAdd(seen, size), regions := s.regions + [Region(seen, size)]);
          Move(u, t, Unlock(size, seen, Some(seen)))
        else Move(s, t, Retry(size, since))
      case Unlock(size, seen, r) => Move(s.(locked := false, replies := s.replies + [Reply(size, seen, r)]), t, Idle)
      case Retry(size, _) => Move(s.(locked := false), t, Spin(size))
      case Store(value) => Move(s.(current := value, sets := s.sets + 1), t, Idle)
  }

  function Run(b: Bounds, s: State, schedule: seq<(nat, Action)>): State
    decreases |schedule|
  {
    if schedule == [] then s
    else
      var last := schedule[|schedule| - 1];
      Step(b, Run(b, s, schedule[..|schedule| - 1]), last.0, last.1)
  }

  function Init(b: Bounds, n: nat): State {
    State(b.start, false, seq(n, _ => Idle), [], 0, [])
  }

  predicate Critical(pc: Pc) {
    pc.Load? || pc.Check? || pc.Swap? || pc.Unlock? || pc.Retry?
  }

  ghost predicate Mutex(s: State) {
    && (s.locked <==> exists t :: 0 <= t < |s.threads| && Critical(s.threads[t]))
    && (forall t, u ::
          0 <= t < |s.threads| && 0 <= u < |s.threads| && Critical(s.threads[t]) && Critical(s.threads[u]) ==> t == u)
  }

  /** The regions lie end to end from `start` to `current`. */
  predicate Tiled(start: nat, regions: seq<Region>, current: nat) {
    if regions == [] then current == start
    else
      var last := regions[|regions| - 1];
      last.size > 0 && last.base + last.size == current && Tiled(start, regions[..|regions| - 1], last.base)
  }

  function TotalSize(regions: seq<Region>): nat {
    if regions == [] then 0 else TotalSize(regions[..|regions| - 1]) + regions[|regions| - 1].size
  }

  ghost predicate Within(b: Bounds, regions: seq<Region>) {
    forall i :: 0 <= i < |regions| ==> b.start <= regions[i].base && regions[i].base + regions[i].size <= b.end
  }

  predicate WholePages(size: nat) {
    size > 0 && size % 4096 == 0
  }

  /** What a thread knows: its loaded value is still current unless `set_current` has intervened. */
  ghost predicate Knows(b: Bounds, s: State, pc: Pc) {
    match pc
    case Spin(size) => WholePages(size)
    case Load(size) => WholePages(size)
    case Check(size, seen, since) =>
      WholePages(size) && b.start <= seen <= b.end && since <= s.sets && (seen == s.current || since < s.sets)
    case Swap(size, seen, since) =>
      && WholePages(size) && b.start <= seen <= b.end && SaturatingAdd(seen, size) <= b.end
      && since <= s.sets && (seen == s.current || since < s.sets)
    case Retry(size, since) => WholePages(size) && since < s.sets
    case Store(value) => b.start <= value <= b.end
    case _ => true
  }

  /** With an end below `usize::MAX`, the regions handed out also lie within the bounds. */
  ghost predicate Inv(b: Bounds, s: State) {
    && b.start <= b.end <= USIZE_MAX && b.start <= s.current <= b.end && Mutex(s)
    && (b.end < USIZE_MAX ==> Within(b, s.regions) && (s.sets == 0 ==> Tiled(b.start, s.regions, s.current)))
    && (forall t :: 0 <= t < |s.threads| ==> Knows(b, s, s.threads[t]))
  }

  lemma TiledSnoc(start: nat, regions: seq<Region>, r: Region)
    requires r.size > 0 && Tiled(start, regions, r.base)
    ensures Tiled(start, regions + [r], r.base + r.size)
  {
    assert (regions + [r])[..|regions|] == regions;
  }

  /** A step that keeps `locked` in line with the moving thread keeps mutual exclusion. */
  lemma MutexKeeps(s: State, u: State, t: nat)
    requires Mutex(s) && t < |s.threads| && |u.threads| == |s.threads| && u.threads == s.threads[t := u.threads[t]]
    requires Critical(u.threads[t]) == Critical(s.threads[t]) ==> u.locked == s.locked
    requires Critical(u.threads[t]) && !Critical(s.threads[t]) ==> !s.locked && u.locked
    requires !Critical(u.threads[t]) && Critical(s.threads[t]) ==> !u.locked
    ensures Mutex(u)
  {
    if i: int :| 0 <= i < |s.threads| && Critical(s.threads[i]) && i != t {
      assert Critical(u.threads[i]);
    }
  }

  /** A thread that is not in its critical section does not mind others advancing `current` under the lock. */
  lemma OthersKnow(b: Bounds, s: State, u: State, t: nat)
    requires Inv(b, s) && t < |s.threads| && |u.threads| == |s.threads| && u.threads == s.threads[t := u.threads[t]]
    requires u.sets > s.sets || (u.sets == s.sets && (u.current == s.current || Critical(s.threads[t])))
    requires Knows(b, u, u.threads[t])
    ensures forall i :: 0 <= i < |u.threads| ==> Knows(b, u, u.threads[i])
  {
    forall i | 0 <= i < |u.threads| ensures Knows(b, u, u.threads[i]) {
      if i != t {
        assert Knows(b, s, s.threads[i]);
      }
    }
  }

  /** What a step does to the lock and to the other threads. */
  lemma StepMutex(b: Bounds, s: State, t: nat, a: Action)
    requires Mutex(s) && t < |s.threads|
    ensures var u := Step(b, s, t, a);
      Mutex(u) && |u.threads| == |s.threads| && u.threads == s.threads[t := u.threads[t]]
  {
    hide Mutex;
    LockFree(s);
    MutexKeeps(s, Step(b, s, t, a), t);
  }

  /** What a step does to the shared fields. */
  lemma StepShared(b: Bounds, s: State, t: nat, a: Action)
    requires Inv(b, s) && t < |s.threads|
    ensures var u := Step(b, s, t, a);
      && |u.threads| == |s.threads| && b.start <= u.current <= b.end
      && (b.end < USIZE_MAX ==> Within(b, u.regions) && (u.sets == 0 ==> Tiled(b.start, u.regions, u.current)))
      && (u.sets > s.sets || (u.sets == s.sets && (u.current == s.current || Critical(s.threads[t]))))
  {
    hide Mutex, Tiled, Within, WholePages;
    assert Knows(b, s, s.threads[t]);
    if b.end < USIZE_MAX && s.threads[t].Swap? && s.current == s.threads[t].seen {
      TiledSnocIf(b, s, Region(s.threads[t].seen, s.threads[t].size));
      WithinSnoc(b, s.regions, Region(s.threads[t].seen, s.threads[t].size));
    }
  }

  lemma WithinSnoc(b: Bounds, regions: seq<Region>, r: Region)
    requires Within(b, regions) && b.start <= r.base && r.base + r.size <= b.end
    ensures Within(b, regions + [r])
  {
  }

  /** What the moving thread knows after a step. */
  lemma StepKnows(b: Bounds, s: State, t: nat, a: Action)
    requires Inv(b, s) && t < |s.threads|
    ensures var u := Step(b, s, t, a); |u.threads| == |s.threads| && Knows(b, u, u.threads[t])
  {
    hide Mutex, Tiled, Within, WholePages;
    assert Knows(b, s, s.threads[t]);
    if s.threads[t].Idle? && a.StartAllocate? && a.count > 0 {
      CountedPages(a.count);
    }
  }

  lemma CountedPages(count: nat)
    requires count > 0
    ensures WholePages(count * 4096)
  {
  }

  /** Every step of every thread keeps the invariant. */
  lemma StepKeeps(b: Bounds, s: State, t: nat, a: Action)
    requires Inv(b, s)
    ensures Inv(b, Step(b, s, t, a))
  {
    hide Mutex, Tiled, Within, Knows;
    if t < |s.threads| {
      StepMutex(b, s, t, a);
      StepShared(b, s, t, a);
      StepKnows(b, s, t, a);
      hide Step;
      OthersKnow(b, s, Step(b, s, t, a), t);
    }
  }

  lemma LockFree(s: State)
    requires Mutex(s)
    ensures forall t :: 0 <= t < |s.threads| && Critical(s.threads[t]) ==> s.locked
  {
  }

  lemma TiledSnocIf(b: Bounds, s: State, r: Region)
    requires WholePages(r.size) && r.base == s.current
    requires s.sets == 0 ==> Tiled(b.start, s.regions, s.current)
    ensures s.sets == 0 ==> Tiled(b.start, s.regions + [r], r.base + r.size)
  {
    if s.sets == 0 {
      TiledSnoc(b.start, s.regions, r);
    }
  }

  lemma InitInv(b: Bounds, n: nat)
    requires b.start <= b.end <= USIZE_MAX
    ensures Inv(b, Init(b, n))
  {
    var s := Init(b, n);
    assert forall t :: 0 <= t < |s.threads| ==> s.threads[t] == Idle;
  }

  lemma {:induction false} RunKeeps(b: Bounds, s: State, schedule: seq<(nat, Action)>)
    requires Inv(b, s)
    ensures Inv(b, Run(b, s, schedule))
    decreases |schedule|
  {
    hide Inv, Step;
    if schedule != [] {
      RunKeeps(b, s, schedule[..|schedule| - 1]);
      var last := schedule[|schedule| - 1];
      StepKeeps(b, Run(b, s, schedule[..|schedule| - 1]), last.0, last.1);
    }
  }

  // ---------- Tilings

  lemma {:induction false} TiledSpan(start: nat, regions: seq<Region>, current: nat)
    requires Tiled(start, regions, current)
    ensures start <= current && TotalSize(regions) == current - start
    ensures forall i :: 0 <= i < |regions| ==> start <= regions[i].base && regions[i].base + regions[i].size <= current
    decreases |regions|
  {
    if regions != [] {
      var prefix, last := regions[..|regions| - 1], regions[|regions| - 1];
      TiledSpan(start, prefix, last.base);
      assert forall i :: 0 <= i < |prefix| ==> regions[i] == prefix[i];
    }
  }

  lemma {:induction false} TiledDisjoint(start: nat, regions: seq<Region>, current: nat, i: nat, j: nat)
    requires Tiled(start, regions, current) && i < j < |regions|
    ensures regions[i].base + regions[i].size <= regions[j].base
    decreases |regions|
  {
    var prefix, last := regions[..|regions| - 1], regions[|regions| - 1];
    if j == |regions| - 1 {
      TiledSpan(start, prefix, last.base);
      assert prefix[i] == regions[i];
    } else {
      TiledDisjoint(start, prefix, last.base, i, j);
    }
  }

  // ---------- What holds in every run

  /**
    Over every interleaving, `set_current` included, one thread at most is in its critical section and `current` stays
    within the bounds.
   */
  lemma RunKeepsCurrent(b: Bounds, n: nat, schedule: seq<(nat, Action)>)
    requires b.start <= b.end <= USIZE_MAX
    ensures var s := Run(b, Init(b, n), schedule); Mutex(s) && b.start <= s.current <= b.end
  {
    hide Run, Mutex, Within;
    InitInv(b, n);
    RunKeeps(b, Init(b, n), schedule);
  }

  /** With an end below `usize::MAX`, every region handed out lies within the bounds. */
  lemma RunStaysInBounds(b: Bounds, n: nat, schedule: seq<(nat, Action)>)
    requires b.start <= b.end < USIZE_MAX
    ensures Within(b, Run(b, Init(b, n), schedule).regions)
  {
    hide Run, Mutex, Within;
    InitInv(b, n);
    RunKeeps(b, Init(b, n), schedule);
  }

  /** Without a `set_current` store the regions are pairwise disjoint, in order, and total `current - start`. */
  lemma RunRegionsDisjoint(b: Bounds, n: nat, schedule: seq<(nat, Action)>)
    requires b.start <= b.end < USIZE_MAX && Run(b, Init(b, n), schedule).sets == 0
    ensures var s := Run(b, Init(b, n), schedule);
      && TotalSize(s.regions) == s.current - b.start
      && (forall i, j :: 0 <= i < j < |s.regions| ==> s.regions[i].base + s.regions[i].size <= s.regions[j].base)
  {
    hide Run, Mutex, Within, Tiled;
    InitInv(b, n);
    RunKeeps(b, Init(b, n), schedule);
    var s := Run(b, Init(b, n), schedule);
    TiledSpan(b.start, s.regions, s.current);
    forall i, j | 0 <= i < j < |s.regions| ensures s.regions[i].base + s.regions[i].size <= s.regions[j].base {
      TiledDisjoint(b.start, s.regions, s.current, i, j);
    }
  }

  /** A failed compare-and-swap is possible only after a `set_current` store made since the value was loaded. */
  lemma RetryMeansSet(b: Bounds, n: nat, schedule: seq<(nat, Action)>, t: nat)
    requires b.start <= b.end <= USIZE_MAX && t < |Run(b, Init(b, n), schedule).threads|
    ensures var s := Run(b, Init(b, n), schedule);
      match s.threads[t]
      case Retry(_, since) => since < s.sets
      case Swap(_, seen, since) => seen != s.current ==> since < s.sets
      case _ => true
  {
    hide Run, Mutex, Within, Tiled;
    InitInv(b, n);
    RunKeeps(b, Init(b, n), schedule);
    var s := Run(b, Init(b, n), schedule);
    assert Knows(b, s, s.threads[t]);
  }
}
