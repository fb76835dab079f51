/**
  Which values `set_current` of src/syscall/core.rs may store, and which ends are safe, for the regions to stay apart.
 */
module BumpRegions {
  import opened Options
  import opened BumpAllocator

  predicate Overlap(p: Region, q: Region) {
    p.base < q.base + q.size && q.base < p.base + p.size
  }

  ghost predicate Disjoint(regions: seq<Region>) {
    forall i, j :: 0 <= i < j < |regions| ==> !Overlap(regions[i], regions[j])
  }

  /** The end of the last whole page that can be handed out from `v` on. */
  function Limit(b: Bounds, v: nat): nat {
    if v <= b.end then v + (b.end - v) / 4096 * 4096 else v
  }

  /** Region `r` does not meet the pages that can be handed out from `v` on. */
  predicate Clear(b: Bounds, r: Region, v: nat) {
    r.base + r.size <= v || Limit(b, v) <= r.base
  }

  /** No page can be handed out from `v` on, or no region handed out meets those pages. */
  ghost predicate SafeValue(b: Bounds, regions: seq<Region>, v: nat) {
    v + 4096 > b.end || forall i :: 0 <= i < |regions| ==> Clear(b, regions[i], v)
  }

  /** A value at or above the end of every region handed out is safe. */
  lemma AboveIsSafe(b: Bounds, regions: seq<Region>, v: nat)
    requires forall i :: 0 <= i < |regions| ==> regions[i].base + regions[i].size <= v
    ensures SafeValue(b, regions, v)
  {
  }

  // ---------- Safe stores keep the regions apart

  ghost predicate Apart(b: Bounds, s: State) {
    Disjoint(s.regions) && SafeValue(b, s.regions, s.current)
  }

  /** Thread `t` is not about to store an unsafe value. */
  ghost predicate SafeStep(b: Bounds, s: State, t: nat) {
    t < |s.threads| && s.threads[t].Store? ==> SafeValue(b, s.regions, s.threads[t].value)
  }

  lemma LimitStays(b: Bounds, v: nat, size: nat)
    requires WholePages(size) && v + size <= b.end
    ensures Limit(b, v + size) == Limit(b, v) && v + size <= Limit(b, v)
  {
    var k := size / 4096;
    assert size == 4096 * k;
    assert (b.end - v - size) / 4096 == (b.end - v) / 4096 - k;
  }

  lemma GrowApart(b: Bounds, regions: seq<Region>, v: nat, size: nat)
    requires WholePages(size) && v + size <= b.end && Disjoint(regions) && SafeValue(b, regions, v)
    ensures Disjoint(regions + [Region(v, size)]) && SafeValue(b, regions + [Region(v, size)], v + size)
  {
    hide Limit;
    LimitStays(b, v, size);
    SizeBound(size);
    var longer := regions + [Region(v, size)];
    forall i | 0 <= i < |regions| ensures !Overlap(longer[i], Region(v, size)) && Clear(b, longer[i], v + size) {
      assert Clear(b, regions[i], v);
    }
    assert longer[|regions|] == Region(v, size);
  }

  lemma SizeBound(size: nat)
    requires WholePages(size)
    ensures size >= 4096
  {
  }

  lemma StepApart(b: Bounds, s: State, t: nat, a: Action)
    requires Inv(b, s) && b.end < USIZE_MAX && Apart(b, s) && SafeStep(b, s, t)
    ensures Apart(b, Step(b, s, t, a))
  {
    hide Disjoint, SafeValue, Mutex, Within, Tiled, WholePages;
    if t < |s.threads| {
      assert Knows(b, s, s.threads[t]);
      if s.threads[t].Swap? && s.current == s.threads[t].seen {
        GrowApart(b, s.regions, s.threads[t].seen, s.threads[t].size);
      }
    }
  }

  /** Every `set_current` store of the schedule is safe when it happens. */
  ghost predicate SafeStores(b: Bounds, s: State, schedule: seq<(nat, Action)>) {
    schedule == [] ||
    var prefix := schedule[..|schedule| - 1];
    SafeStores(b, s, prefix) && SafeStep(b, Run(b, s, prefix), schedule[|schedule| - 1].0)
  }

  lemma {:induction false} SafeRunApart(b: Bounds, s: State, schedule: seq<(nat, Action)>)
    requires Inv(b, s) && b.end < USIZE_MAX && Apart(b, s) && SafeStores(b, s, schedule)
    ensures Apart(b, Run(b, s, schedule))
    decreases |schedule|
  {
    hide Inv, Step, Apart, SafeStep;
    if schedule != [] {
      var prefix, last := schedule[..|schedule| - 1], schedule[|schedule| - 1];
      SafeRunApart(b, s, prefix);
      RunKeeps(b, s, prefix);
      StepApart(b, Run(b, s, prefix), last.0, last.1);
    }
  }

  /**
    In every run whose `set_current` stores are safe when they happen, the regions handed out are pairwise disjoint.
   */
  lemma SafeStoresKeepApart(b: Bounds, n: nat, schedule: seq<(nat, Action)>)
    requires b.start <= b.end < USIZE_MAX && SafeStores(b, Init(b, n), schedule)
    ensures Disjoint(Run(b, Init(b, n), schedule).regions)
  {
    hide Run, SafeStores;
    InitInv(b, n);
    SafeRunApart(b, Init(b, n), schedule);
  }

  // ---------- One thread on its own

  /** Thread `t` allocates, then thread `t` stores, with every other thread waiting. */
  function AllocateSchedule(t: nat, count: nat): seq<(nat, Action)> {
    [(t, StartAllocate(count)), (t, Go), (t, Go), (t, Go), (t, Go), (t, Go)]
  }

  function SetSchedule(t: nat, v: nat): seq<(nat, Action)> {
    [(t, StartSet(v)), (t, Go)]
  }

  lemma MoveTwice(s: State, t: nat, p: Pc, q: Pc)
    requires t < |s.threads|
    ensures Move(Move(s, t, p), t, q) == Move(s, t, q)
    ensures s.threads[t] == q ==> Move(s, t, q) == s
  {
    assert s.threads[t := p][t := q] == s.threads[t := q];
  }

  lemma RunSnoc(b: Bounds, s: State, schedule: seq<(nat, Action)>, a: (nat, Action))
    ensures Run(b, s, schedule + [a]) == Step(b, Run(b, s, schedule), a.0, a.1)
    ensures Run(b, s, []) == s
  {
    hide Step;
    assert (schedule + [a])[..|schedule|] == schedule;
  }

  lemma {:induction false} RunConcat(b: Bounds, s: State, first: seq<(nat, Action)>, second: seq<(nat, Action)>)
    ensures Run(b, s, first + second) == Run(b, Run(b, s, first), second)
    decreases |second|
  {
    hide Step;
    if second == [] {
      assert first + second == first;
    } else {
      var prefix, last := second[..|second| - 1], second[|second| - 1];
      RunConcat(b, s, first, prefix);
      RunSnoc(b, s, first + prefix, last);
      RunSnoc(b, Run(b, s, first), prefix, last);
      assert first + second == first + prefix + [last];
      assert second == prefix + [last];
    }
  }

  /** What the shared fields are after an allocation and after a store. */
  function Allocated(s: State, size: nat): State {
    s.(current := SaturatingAdd(s.current, size), regions := s.regions + [Region(s.current, size)],
       replies := s.replies + [Reply(size, s.current, Some(s.current))])
  }

  function Stored(s: State, v: nat): State {
    s.(current := v, sets := s.sets + 1)
  }

  lemma AllocateAlone(b: Bounds, s: State, t: nat, count: nat)
    requires t < |s.threads| && s.threads[t] == Idle && !s.locked && 0 < count && count * 4096 <= USIZE_MAX
    requires SaturatingAdd(s.current, count * 4096) <= b.end
    ensures Run(b, s, AllocateSchedule(t, count)) == Allocated(s, count * 4096)
  {
    hide Run;
    var z := count * 4096;
    var l := s.(locked := true);
    var d := Allocated(l, z).(replies := s.replies);
    var done := Unlock(z, s.current, Some(s.current));
    var go := (t, Go);
    var x1 := [(t, StartAllocate(count))];
    RunSnoc(b, s, [], (t, StartAllocate(count)));
    assert [] + x1 == x1;
    assert Run(b, s, x1) == Move(s, t, Spin(z));
    RunSnoc(b, s, x1, go);
    MoveTwice(l, t, Spin(z), Load(z));
    assert Run(b, s, x1 + [go]) == Move(l, t, Load(z));
    RunSnoc(b, s, x1 + [go], go);
    MoveTwice(l, t, Load(z), Check(z, s.current, s.sets));
    var x3 := x1 + [go] + [go];
    assert Run(b, s, x3) == Move(l, t, Check(z, s.current, s.sets));
    RunSnoc(b, s, x3, go);
    MoveTwice(l, t, Check(z, s.current, s.sets), Swap(z, s.current, s.sets));
    assert Run(b, s, x3 + [go]) == Move(l, t, Swap(z, s.current, s.sets));
    RunSnoc(b, s, x3 + [go], go);
    MoveTwice(d, t, Swap(z, s.current, s.sets), done);
    var x5 := x3 + [go] + [go];
    assert Run(b, s, x5) == Move(d, t, done);
    RunSnoc(b, s, x5, go);
    MoveTwice(Allocated(s, z), t, done, Idle);
    assert x5 + [go] == AllocateSchedule(t, count);
  }

  lemma SetAlone(b: Bounds, s: State, t: nat, v: nat)
    requires t < |s.threads| && s.threads[t] == Idle && b.start <= v <= b.end
    ensures Run(b, s, SetSchedule(t, v)) == Stored(s, v)
  {
    hide Run;
    var x1 := [(t, StartSet(v))];
    RunSnoc(b, s, [], (t, StartSet(v)));
    assert [] + x1 == x1;
    assert Run(b, s, x1) == Move(s, t, Store(v));
    RunSnoc(b, s, x1, (t, Go));
    MoveTwice(Stored(s, v), t, Store(v), Idle);
    assert x1 + [(t, Go)] == SetSchedule(t, v);
  }

  // ---------- Which stores are safe

  lemma StepSets(b: Bounds, s: State, t: nat, a: Action)
    ensures Step(b, s, t, a).sets >= s.sets
    ensures Step(b, s, t, a).sets == s.sets ==> SafeStep(b, s, t)
  {
  }

  /** A run that stores nothing has only safe stores. */
  lemma {:induction false} NoStoresAreSafe(b: Bounds, s: State, schedule: seq<(nat, Action)>)
    ensures Run(b, s, schedule).sets >= s.sets
    ensures Run(b, s, schedule).sets == s.sets ==> SafeStores(b, s, schedule)
    decreases |schedule|
  {
    hide Step, SafeStep;
    if schedule != [] {
      var prefix, last := schedule[..|schedule| - 1], schedule[|schedule| - 1];
      NoStoresAreSafe(b, s, prefix);
      StepSets(b, Run(b, s, prefix), last.0, last.1);
    }
  }

  /** Unless it stores again, the continuation hands out no region that overlaps another. */
  ghost predicate KeepsApart(b: Bounds, s: State, more: seq<(nat, Action)>) {
    Run(b, s, more).sets == s.sets ==> Disjoint(Run(b, s, more).regions)
  }

  lemma UnsafeOverlaps(b: Bounds, s: State, t: nat, v: nat)
    requires b.start <= v <= b.end < USIZE_MAX && !s.locked && t < |s.threads| && s.threads[t] == Idle
    requires !SafeValue(b, s.regions, v)
    ensures !KeepsApart(b, Stored(s, v), AllocateSchedule(t, (b.end - v) / 4096))
  {
    hide Run, AllocateSchedule;
    var count := (b.end - v) / 4096;
    AllocateAlone(b, Stored(s, v), t, count);
    var regions := Run(b, Stored(s, v), AllocateSchedule(t, count)).regions;
    var i :| 0 <= i < |s.regions| && !Clear(b, s.regions[i], v);
    assert regions == s.regions + [Region(v, count * 4096)];
    assert regions[i] == s.regions[i] && Overlap(regions[i], regions[|s.regions|]);
  }

  /**
    Between operations of any run, storing `v` is harmless exactly when it is safe: then no continuation hands out
    overlapping regions before the next store, and otherwise one allocation does.
   */
  lemma StoreSafeIff(b: Bounds, n: nat, schedule: seq<(nat, Action)>, t: nat, v: nat)
    requires b.start <= v <= b.end < USIZE_MAX
    requires var s := Run(b, Init(b, n), schedule);
      !s.locked && t < |s.threads| && s.threads[t] == Idle && Disjoint(s.regions)
    ensures var s := Run(b, Init(b, n), schedule);
      && Run(b, Init(b, n), schedule + SetSchedule(t, v)) == Stored(s, v)
      && ((forall more :: KeepsApart(b, Stored(s, v), more)) <==> SafeValue(b, s.regions, v))
  {
    hide Run, SetSchedule, AllocateSchedule, KeepsApart, SafeValue, Disjoint, Inv;
    var s := Run(b, Init(b, n), schedule);
    SetAlone(b, s, t, v);
    RunConcat(b, Init(b, n), schedule, SetSchedule(t, v));
    InitInv(b, n);
    RunKeeps(b, Init(b, n), schedule + SetSchedule(t, v));
    if SafeValue(b, s.regions, v) {
      forall more ensures KeepsApart(b, Stored(s, v), more) {
        ContinuesApart(b, Stored(s, v), more);
      }
    } else {
      UnsafeOverlaps(b, s, t, v);
    }
  }

  /** For any bounds with room for a page, moving back to the start hands out the same region again. */
  lemma SetCurrentCanOverlap(b: Bounds) returns (schedule: seq<(nat, Action)>)
    requires b.start + 4096 <= b.end < USIZE_MAX
    ensures Run(b, Init(b, 1), schedule).regions == [Region(b.start, 4096), Region(b.start, 4096)]
  {
    hide Run, SetSchedule, AllocateSchedule;
    var s0 := Init(b, 1);
    AllocateAlone(b, s0, 0, 1);
    var s1 := Allocated(s0, 4096);
    SetAlone(b, s1, 0, b.start);
    AllocateAlone(b, Stored(s1, b.start), 0, 1);
    RunConcat(b, s0, AllocateSchedule(0, 1), SetSchedule(0, b.start));
    RunConcat(b, s0, AllocateSchedule(0, 1) + SetSchedule(0, b.start), AllocateSchedule(0, 1));
    schedule := AllocateSchedule(0, 1) + SetSchedule(0, b.start) + AllocateSchedule(0, 1);
  }

  lemma ContinuesApart(b: Bounds, s: State, more: seq<(nat, Action)>)
    requires Inv(b, s) && b.end < USIZE_MAX && Apart(b, s)
    ensures KeepsApart(b, s, more)
  {
    hide Run, Inv, SafeStores;
    NoStoresAreSafe(b, s, more);
    if Run(b, s, more).sets == s.sets {
      SafeRunApart(b, s, more);
    }
  }

  // ---------- Which ends are safe

  ghost predicate AlwaysWithin(b: Bounds) {
    forall n, schedule :: Within(b, Run(b, Init(b, n), schedule).regions)
  }

  ghost predicate AlwaysApart(b: Bounds) {
    forall n, schedule :: SafeStores(b, Init(b, n), schedule) ==> Disjoint(Run(b, Init(b, n), schedule).regions)
  }

  /** The number of pages in the largest request whose byte count does not overflow. */
  const MOST_PAGES: nat := 0xF_FFFF_FFFF_FFFF

  function ThreeRequests(): seq<(nat, Action)> {
    AllocateSchedule(0, MOST_PAGES) + AllocateSchedule(0, 1) + AllocateSchedule(0, 1)
  }

  /** With the end at `usize::MAX` every request is granted, even once `current` has reached the end. */
  lemma SaturatedRun(b: Bounds)
    requires b.start <= b.end == USIZE_MAX
    ensures var s := Run(b, Init(b, 1), ThreeRequests());
      s.sets == 0 && |s.regions| == 3 && s.regions[2] == Region(USIZE_MAX, 4096) && Overlap(s.regions[1], s.regions[2])
  {
    hide Run, AllocateSchedule;
    var s0 := Init(b, 1);
    AllocateAlone(b, s0, 0, MOST_PAGES);
    var s1 := Allocated(s0, MOST_PAGES * 4096);
    AllocateAlone(b, s1, 0, 1);
    var s2 := Allocated(s1, 4096);
    AllocateAlone(b, s2, 0, 1);
    RunConcat(b, s0, AllocateSchedule(0, MOST_PAGES), AllocateSchedule(0, 1));
    RunConcat(b, s0, AllocateSchedule(0, MOST_PAGES) + AllocateSchedule(0, 1), AllocateSchedule(0, 1));
  }

  /** All runs keep every region within the bounds exactly when the end is below `usize::MAX`. */
  lemma WithinIff(b: Bounds)
    requires b.start <= b.end <= USIZE_MAX
    ensures AlwaysWithin(b) <==> b.end < USIZE_MAX
  {
    hide Run, Init, ThreeRequests;
    if b.end < USIZE_MAX {
      forall n, schedule ensures Within(b, Run(b, Init(b, n), schedule).regions) {
        RunStaysInBounds(b, n, schedule);
      }
    } else {
      SaturatedRun(b);
      assert !Within(b, Run(b, Init(b, 1), ThreeRequests()).regions);
    }
  }

  /** All runs whose stores are safe keep the regions disjoint exactly when the end is below `usize::MAX`. */
  lemma ApartIff(b: Bounds)
    requires b.start <= b.end <= USIZE_MAX
    ensures AlwaysApart(b) <==> b.end < USIZE_MAX
  {
    hide Run, ThreeRequests, SafeStores;
    if b.end < USIZE_MAX {
      forall n, schedule | SafeStores(b, Init(b, n), schedule) ensures Disjoint(Run(b, Init(b, n), schedule).regions) {
        SafeStoresKeepApart(b, n, schedule);
      }
    } else {
      SaturatedRun(b);
      NoStoresAreSafe(b, Init(b, 1), ThreeRequests());
      assert !Disjoint(Run(b, Init(b, 1), ThreeRequests()).regions);
    }
  }

  /** `new`: the end saturates. */
  function NewBounds(start: nat, size: nat): Bounds {
    Bounds(start, SaturatingAdd(start, size))
  }

  /**
    All runs of a new allocator keep all regions inside the memory given exactly when that ends below the largest
    `usize`.
   */
  lemma NewWithinIff(start: nat, size: nat)
    requires start <= USIZE_MAX
    ensures var b := NewBounds(start, size);
      && b.start == start <= b.end <= start + size
      && (AlwaysWithin(b) <==> start + size < USIZE_MAX)
  {
    hide AlwaysWithin;
    WithinIff(NewBounds(start, size));
  }
}
