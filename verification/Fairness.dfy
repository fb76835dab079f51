/** Bounded waiting of the round-robin search, and the exact layouts of the run queue for which it holds. */
module Fairness {
  import opened Options
  import opened RunQueue
  import opened QueueInvariant

  /** How many probes precede slot `x` in the search of a task whose id is `key` modulo the queue length. */
  function Pos(n: nat, key: nat, x: nat): nat
    requires key < n && x < n
  {
    if x > key then x - key - 1 else x + n - key - 1
  }

  /** How far slot `x` lies after slot `a`, going round. */
  function Dist(n: nat, a: nat, x: nat): nat
    requires a < n && x < n
  {
    if x >= a then x - a else x + n - a
  }

  ghost predicate Active(s: Sched) {
    Inv(s) && !s.locked && s.current.Some?
  }

  ghost function CurrentId(s: Sched): nat
    requires s.current.Some? && s.current.value < |s.pcbs|
  {
    s.pcbs[s.current.value].id
  }

  ghost function Key(s: Sched): (k: nat)
    requires |s.slots| > 0 && s.current.Some? && s.current.value < |s.pcbs|
    ensures k < |s.slots|
  {
    CurrentId(s) % |s.slots|
  }

  ghost function KeyOf(s: Sched, i: nat): (k: nat)
    requires Occupied(s, i)
    ensures k < |s.slots|
  {
    Task(s, i).id % |s.slots|
  }

  /** No queued task sits after another task's slot and at or before the slot that task's id points to. */
  ghost predicate Clear(s: Sched) {
    forall a: nat, w: nat :: Occupied(s, a) && Occupied(s, w) && a != w ==>
      Dist(|s.slots|, a, KeyOf(s, a)) < Dist(|s.slots|, a, w)
  }

  /** Each task's id is congruent to its slot. */
  ghost predicate Congruent(s: Sched) {
    forall i: nat :: Occupied(s, i) ==> KeyOf(s, i) == i
  }

  lemma CongruentIsClear(s: Sched)
    requires Congruent(s)
    ensures Clear(s)
  {
  }

  /** The slot that `schedule` settles on. */
  ghost function Chosen(s: Sched): Option<nat>
    requires Active(s)
  {
    FindNext(Demote(s))
  }

  // ---------- The search order

  lemma ProbeIsPos(n: nat, key: nat, k: nat, x: nat)
    requires key < n && k < n && x < n
    ensures Probe(n, key + 1, k) == x <==> k == Pos(n, key, x)
  {
    hide Probe;
    ProbeWraps(n, key + 1, k);
  }

  lemma ProbeWraps(n: nat, start: nat, k: nat)
    requires start <= n && k < n
    ensures Probe(n, start, k) == if start + k < n then start + k else start + k - n
  {
    if start + k >= n {
      Wrapped(n, start + k - n);
    }
  }

  /** The search returns the ready slot with the fewest probes before it. */
  lemma FindNextIsFirst(s: Sched)
    requires Shape(s) && s.current.Some?
    ensures match FindNext(s)
      case None => forall x: nat :: !IsReady(s, x)
      case Some(j) => IsReady(s, j) && forall x: nat :: IsReady(s, x) ==>
        Pos(|s.slots|, Key(s), j) <= Pos(|s.slots|, Key(s), x)
  {
    hide Probe;
    HaltMeansNone(s);
    var n, key := |s.slots|, Key(s);
    var start := key + 1;
    ProbeFinds(s, start, 0);
    if FindNext(s).Some? {
      var j := FindNext(s).value;
      var k: nat :| k < n && j == Probe(n, start, k) && forall m: nat :: 0 <= m < k ==> !IsReady(s, Probe(n, start, m));
      ProbeIsPos(n, key, k, j);
      forall x: nat | IsReady(s, x) ensures Pos(n, key, j) <= Pos(n, key, x) {
        ProbeIsPos(n, key, Pos(n, key, x), x);
        assert Probe(n, start, Pos(n, key, x)) == x;
      }
    }
  }

  lemma DemoteReady(s: Sched, w: nat)
    requires Active(s) && IsReady(s, w)
    ensures IsReady(Demote(s), w) && Key(Demote(s)) == Key(s)
    ensures forall i: nat :: Occupied(Demote(s), i) <==> Occupied(s, i)
    ensures forall i: nat :: Occupied(s, i) ==> Task(Demote(s), i).id == Task(s, i).id
  {
  }

  lemma Closer(n: nat, key: nat, j: nat, w: nat, next: nat)
    requires key < n && j < n && w < n && next < n && j != w
    requires Pos(n, key, j) < Pos(n, key, w) && Dist(n, j, next) < Dist(n, j, w)
    ensures Pos(n, next, w) < Pos(n, key, w)
  {
  }

  lemma Ahead(n: nat, key: nat, c: nat, w: nat)
    requires key < n && c < n && w < n && Dist(n, c, key) < Dist(n, c, w)
    ensures Pos(n, key, w) < Pos(n, key, c)
  {
  }

  lemma PosInjective(n: nat, key: nat, x: nat, y: nat)
    requires key < n && x < n && y < n && Pos(n, key, x) == Pos(n, key, y)
    ensures x == y
  {
  }

  /** A call that passes over a ready task brings the search closer to it. */
  lemma Progress(s: Sched, w: nat)
    requires Active(s) && Clear(s) && IsReady(s, w) && Chosen(s) != Some(w)
    ensures var u := Schedule(s).0;
      && Chosen(s).Some? && Schedule(s).1 == Switched(Chosen(s).value)
      && Active(u) && u.slots == s.slots && IsReady(u, w)
      && Pos(|s.slots|, Key(u), w) < Pos(|s.slots|, Key(s), w)
  {
    hide Inv;
    ActiveShape(s);
    var t := Demote(s);
    var n := |s.slots|;
    DemoteKeeps(s);
    ActiveShape(t);
    DemoteReady(s, w);
    FindNextIsFirst(t);
    var j := FindNext(t).value;
    if Pos(n, Key(t), j) == Pos(n, Key(t), w) {
      PosInjective(n, Key(t), j, w);
    }
    if Task(t, j).id == CurrentId(t) {
      Ahead(n, KeyOf(s, j), j, w);
    }
    DispatchKeeps(t, j);
    ScheduleKeeps(s);
    DispatchElsewhere(t, j, w);
    Closer(n, Key(s), j, w, KeyOf(s, j));
  }

  lemma ActiveShape(s: Sched)
    requires Inv(s)
    ensures Shape(s)
  {
  }

  lemma DispatchElsewhere(t: Sched, j: nat, w: nat)
    requires Inv(t) && t.current.Some? && IsReady(t, j) && IsReady(t, w) && j != w && Task(t, j).id != CurrentId(t)
    ensures var u := Dispatch(t, j).0;
      && Dispatch(t, j).1 == Switched(j) && u.slots == t.slots && IsReady(u, w) && u.current.Some?
        && u.current.value < |u.pcbs|
      && CurrentId(u) == Task(t, j).id && u.locked == t.locked
  {
    assert t.slots[j] != t.slots[w];
  }

  // ---------- Bounded waiting

  /** `schedule` is about to be called in each state, slot `w` holds a ready task throughout, and no call chooses it. */
  ghost predicate PassedOver(states: seq<Sched>, w: nat, n: nat) {
    && (forall k :: 0 <= k < |states| ==>
          Active(states[k]) && |states[k].slots| == n && Clear(states[k]) && IsReady(states[k], w)
            && Chosen(states[k]) != Some(w))
    && (forall k, m :: 0 <= k < |states| && m == k + 1 && m < |states| ==> Follows(states[k], states[m]))
  }

  /** Between two calls anything may change except which task is current. */
  ghost predicate Follows(s: Sched, t: Sched) {
    && |s.slots| > 0 && Schedule(s).0.current.Some? && Schedule(s).0.current.value < |Schedule(s).0.pcbs|
    && t.current.Some? && t.current.value < |t.pcbs| && CurrentId(t) == CurrentId(Schedule(s).0)
  }

  /**
    Bounded waiting: however task states change between the calls, a task that stays ready is passed over by no
    more calls than there are probes before its slot, so it is chosen within one more call.
   */
  lemma {:induction false} BoundedWaiting(states: seq<Sched>, w: nat, n: nat)
    requires |states| > 0 && PassedOver(states, w, n)
    ensures |states| <= Pos(n, Key(states[0]), w) < n
    ensures w != Key(states[0]) ==> |states| <= n - 2
    decreases |states|
  {
    hide Inv, Clear, Schedule, IsReady, Chosen;
    var s := states[0];
    Facts(s, w);
    Progress(s, w);
    if |states| > 1 {
      var rest := states[1..];
      assert Follows(states[0], states[1]);
      forall k | 0 <= k < |rest|
        ensures Active(rest[k]) && |rest[k].slots| == n && Clear(rest[k]) && IsReady(rest[k], w)
            && Chosen(rest[k]) != Some(w)
      {
        assert rest[k] == states[k + 1];
      }
      forall k, m | 0 <= k < |rest| && m == k + 1 && m < |rest| ensures Follows(rest[k], rest[m]) {
        assert Follows(states[k + 1], states[m + 1]);
      }
      BoundedWaiting(rest, w, n);
    }
  }

  lemma Facts(s: Sched, w: nat)
    requires Active(s) && IsReady(s, w)
    ensures Shape(s) && w < |s.slots|
  {
  }

  // ---------- Which layouts are fair

  ghost function Iterate(s: Sched, k: nat): Sched
    requires |s.slots| > 0
    ensures |Iterate(s, k).slots| > 0
  {
    if k == 0 then s else
      var t := Iterate(s, k - 1);
      ScheduleSlots(t);
      Schedule(t).0
  }

  lemma ScheduleSlots(s: Sched)
    requires |s.slots| > 0
    ensures Schedule(s).0.slots == s.slots && SameIds(s, Schedule(s).0)
  {
  }

  /**
    Whatever the task states, the current task and the lock, repeated calls of `schedule` reach every ready task in
    time.
   */
  ghost predicate Fair(s: Sched) {
    forall t: Sched, w: nat :: SameIds(s, t) && Active(t) && IsReady(t, w) ==> Reached(t, w)
  }

  ghost predicate Reached(t: Sched, w: nat) {
    |t.slots| > 0 && exists k: nat :: k < |t.slots| && Active(Iterate(t, k)) && Chosen(Iterate(t, k)) == Some(w)
  }

  lemma LayoutClear(s: Sched, t: Sched)
    requires Clear(s) && SameIds(s, t)
    ensures Clear(t)
  {
    assert forall i: nat :: Occupied(t, i) <==> Occupied(s, i);
    assert forall i: nat :: Occupied(t, i) ==> KeyOf(t, i) == KeyOf(s, i);
  }

  lemma {:induction false} NotReachedYet(t: Sched, w: nat, k: nat)
    requires Active(t) && Clear(t) && IsReady(t, w)
    requires forall m: nat :: m < k ==> !(Active(Iterate(t, m)) && Chosen(Iterate(t, m)) == Some(w))
    ensures var u := Iterate(t, k); Active(u) && Clear(u) && IsReady(u, w) && SameIds(t, u)
  {
    hide Inv, Clear, Schedule, IsReady, Chosen;
    if k > 0 {
      NotReachedYet(t, w, k - 1);
      var u := Iterate(t, k - 1);
      assert !(Active(u) && Chosen(u) == Some(w));
      Progress(u, w);
      ScheduleSlots(u);
      LayoutClear(u, Schedule(u).0);
    }
  }

  lemma ClearReaches(t: Sched, w: nat)
    requires Active(t) && Clear(t) && IsReady(t, w)
    ensures Reached(t, w)
  {
    hide Inv, Clear, IsReady, Chosen, Schedule;
    Facts(t, w);
    var n := |t.slots|;
    if !Reached(t, w) {
      var states := seq(n, k requires 0 <= k < n => Iterate(t, k));
      forall k | 0 <= k < n
        ensures Active(states[k]) && |states[k].slots| == n && Clear(states[k]) && IsReady(states[k], w)
            && Chosen(states[k]) != Some(w)
      {
        NotReachedYet(t, w, k);
      }
      forall k, m | 0 <= k < n && m == k + 1 && m < n ensures Follows(states[k], states[m]) {
        assert states[m] == Schedule(Iterate(t, k)).0;
        ScheduleCurrent(states[k], w);
      }
      BoundedWaiting(states, w, n);
    }
  }

  lemma ScheduleCurrent(s: Sched, w: nat)
    requires Active(s) && Clear(s) && IsReady(s, w) && Chosen(s) != Some(w)
    ensures |s.slots| > 0 && Follows(s, Schedule(s).0)
  {
    hide Clear, Chosen, Schedule;
    Facts(s, w);
    Progress(s, w);
  }

  // ---------- The other layouts starve a task

  /** The queue of `s` with task `a` current and running, task `w` ready and every other block blocked. */
  ghost function Duel(s: Sched, a: nat, w: nat): Sched
    requires Occupied(s, a) && Occupied(s, w)
  {
    s.(pcbs := seq(|s.pcbs|, h requires 0 <= h < |s.pcbs| =>
         s.pcbs[h].(state := if s.slots[a] == Some(h) then Running else if s.slots[w] == Some(h) then Ready
           else Blocked)),
       current := s.slots[a], locked := false)
  }

  lemma DuelTasks(s: Sched, a: nat, w: nat)
    requires Inv(s) && Occupied(s, a) && Occupied(s, w) && a != w
    ensures var t := Duel(s, a, w);
      && SameIds(s, t) && t.current == s.slots[a] && !t.locked
      && (forall i: nat :: Occupied(t, i) <==> Occupied(s, i))
      && (forall i: nat :: Occupied(t, i) ==>
            Task(t, i).state == if i == a then Running else if i == w then Ready else Blocked)
  {
    var t := Duel(s, a, w);
    forall i: nat | Occupied(t, i)
      ensures Task(t, i).state == if i == a then Running else if i == w then Ready else Blocked
    {
      assert Occupied(s, i);
      assert Task(s, i).id == Task(s, a).id ==> i == a;
      assert Task(s, i).id == Task(s, w).id ==> i == w;
    }
  }

  lemma DuelActive(s: Sched, a: nat, w: nat)
    requires Inv(s) && Occupied(s, a) && Occupied(s, w) && a != w
    ensures var t := Duel(s, a, w);
      && SameIds(s, t) && Active(t) && Occupied(t, a) && t.slots[a] == t.current && Key(t) == KeyOf(s, a)
        && IsReady(t, w)
      && Task(t, a).state == Running && (forall i: nat :: IsReady(t, i) ==> i == w)
  {
    var t := Duel(s, a, w);
    DuelTasks(s, a, w);
    assert OnlyCurrentRuns(t);
    hide Duel;
    SameIdsKeeps(s, t);
  }

  /** A task that finds itself before the other ready task keeps the processor, and stays ready. */
  lemma FindsItself(t: Sched, a: nat, w: nat)
    requires Active(t) && IsReady(t, a) && t.slots[a] == t.current && w < |t.slots|
    requires forall i: nat :: IsReady(t, i) ==> i == a || i == w
    requires Pos(|t.slots|, Key(t), a) < Pos(|t.slots|, Key(t), w)
    ensures Chosen(t) == Some(a) && Schedule(t) == (t, Kept(a))
  {
    FindNextIsFirst(t);
    assert Demote(t) == t;
  }

  lemma Behind(n: nat, key: nat, a: nat, w: nat)
    requires key < n && a < n && w < n && a != w && !(Dist(n, a, key) < Dist(n, a, w))
    ensures Pos(n, key, a) < Pos(n, key, w)
  {
  }

  lemma DuelFirst(s: Sched, a: nat, w: nat)
    requires Inv(s) && Occupied(s, a) && Occupied(s, w) && a != w
    requires !(Dist(|s.slots|, a, KeyOf(s, a)) < Dist(|s.slots|, a, w))
    ensures var t := Duel(s, a, w);
      && Active(t) && Chosen(t) == Some(a) && Schedule(t).0 == Demote(t)
      && Active(Demote(t)) && Chosen(Demote(t)) == Some(a) && Schedule(Demote(t)).0 == Demote(t)
  {
    hide Duel, Schedule, FindNext;
    var t := Duel(s, a, w);
    DuelActive(s, a, w);
    Behind(|s.slots|, KeyOf(s, a), a, w);
    DemoteKeeps(t);
    DemotedDuel(t, a, w);
    var u := Demote(t);
    FindsItself(u, a, w);
    ScheduleDemoted(t);
  }

  lemma DemotedDuel(t: Sched, a: nat, w: nat)
    requires Active(t) && Occupied(t, a) && t.slots[a] == t.current && Task(t, a).state == Running
    requires forall i: nat :: IsReady(t, i) ==> i == w
    ensures var u := Demote(t);
      IsReady(u, a) && Active(u) && u.slots[a] == u.current && Key(u) == Key(t)
        && forall i: nat :: IsReady(u, i) ==> i == a || i == w
  {
    DemoteKeeps(t);
    var u := Demote(t);
    forall i: nat | IsReady(u, i) && i != a ensures i == w {
      assert Occupied(t, i) && t.slots[i] != t.slots[a];
      assert IsReady(t, i);
    }
  }

  /** Demoting first makes no difference to a call. */
  lemma ScheduleDemoted(t: Sched)
    requires Active(t)
    ensures Active(Demote(t)) && Schedule(t) == Schedule(Demote(t)) && Chosen(t) == Chosen(Demote(t))
  {
    DemoteKeeps(t);
    assert Demote(Demote(t)) == Demote(t);
  }

  lemma {:induction false} DuelForever(s: Sched, a: nat, w: nat, k: nat)
    requires Inv(s) && Occupied(s, a) && Occupied(s, w) && a != w
    requires !(Dist(|s.slots|, a, KeyOf(s, a)) < Dist(|s.slots|, a, w))
    ensures var t := Duel(s, a, w);
      && |t.slots| > 0 && (Iterate(t, k) == t || Iterate(t, k) == Demote(t))
      && Active(Iterate(t, k)) && Chosen(Iterate(t, k)) == Some(a)
  {
    hide Inv, Duel, Schedule, Chosen, Demote;
    DuelFirst(s, a, w);
    ActiveShape(Duel(s, a, w));
    if k > 0 {
      DuelForever(s, a, w, k - 1);
    }
  }

  /**
    If a queued task sits between another task's slot and the slot its id points to, that other task can starve it
    forever.
   */
  lemma Starves(s: Sched, a: nat, w: nat)
    requires Inv(s) && Occupied(s, a) && Occupied(s, w) && a != w
    requires !(Dist(|s.slots|, a, KeyOf(s, a)) < Dist(|s.slots|, a, w))
    ensures var t := Duel(s, a, w);
      && SameIds(s, t) && Active(t) && IsReady(t, w) && |t.slots| > 0
      && forall k: nat :: Active(Iterate(t, k)) && Chosen(Iterate(t, k)) != Some(w)
  {
    hide Inv, Duel, Chosen, Iterate;
    DuelActive(s, a, w);
    ActiveShape(Duel(s, a, w));
    forall k: nat ensures Active(Iterate(Duel(s, a, w), k)) && Chosen(Iterate(Duel(s, a, w), k)) != Some(w) {
      DuelForever(s, a, w, k);
    }
  }

  /** The queue is fair exactly when no task sits between another task's slot and the slot its id points to. */
  lemma FairIff(s: Sched)
    requires Inv(s)
    ensures Fair(s) <==> Clear(s)
  {
    hide Inv, Chosen, Iterate, Duel, IsReady;
    if Clear(s) {
      forall t: Sched, w: nat | SameIds(s, t) && Active(t) && IsReady(t, w) ensures Reached(t, w) {
        LayoutClear(s, t);
        ClearReaches(t, w);
      }
    } else {
      var a: nat, w: nat :| Occupied(s, a) && Occupied(s, w) && a != w
        && !(Dist(|s.slots|, a, KeyOf(s, a)) < Dist(|s.slots|, a, w));
      Starves(s, a, w);
      assert !Reached(Duel(s, a, w), w);
    }
  }

  // ---------- Two tasks after boot

  /** The run queue after `init_scheduler` and one `create_task`. */
  function TwoTasks(n: nat, p: Pcb, quantum: nat): Sched {
    CreateTask(InitScheduler(Boot(n), p), quantum).0
  }

  lemma TwoTasksRun(n: nat, p: Pcb, quantum: nat)
    requires n >= 2 && p.id != 1
    ensures var t := TwoTasks(n, p, quantum);
      && t.pcbs == [p.(state := Running), Pcb(1, Ready, 0, quantum, 0, 0)] && t.current == Some(0) && !t.locked
      && t.slots == Boot(n).slots[0 := Some(0)][1 := Some(1)]
      && Inv(t)
      && IsRun([Boot(n), InitScheduler(Boot(n), p), t], [DoInit(p), DoCreate(quantum)])
  {
    var b := Boot(n);
    var s, t := InitScheduler(b, p), TwoTasks(n, p, quantum);
    assert EmptyFrom(b.slots, 0) == Some(0);
    assert s.slots == b.slots[0 := Some(0)] && s.pcbs == [p.(state := Running)];
    assert EmptyFrom(s.slots, 0) == EmptyFrom(s.slots, 1) == Some(1);
    assert t.pcbs == [p.(state := Running), Pcb(1, Ready, 0, quantum, 0, 0)];
    BootInv(n);
    hide Inv;
    var states, ops := [b, s, t], [DoInit(p), DoCreate(quantum)];
    assert Allowed(b, ops[0]) && Step(b, ops[0]) == s;
    StepKeeps(b, ops[0]);
    assert forall i: nat :: Occupied(s, i) ==> i == 0 && Task(s, i).id == p.id;
    assert Allowed(s, ops[1]) && Step(s, ops[1]) == t;
    StepKeeps(s, ops[1]);
  }

  lemma TwoTasksSlots(n: nat, p: Pcb, quantum: nat)
    requires n >= 2 && p.id != 1
    ensures var t := TwoTasks(n, p, quantum);
      && Occupied(t, 0) && Occupied(t, 1) && (forall i: nat :: Occupied(t, i) ==> i < 2)
      && KeyOf(t, 0) == p.id % n && KeyOf(t, 1) == 1 && Duel(t, 0, 1) == t
  {
    hide Inv, TwoTasks, IsRun, InitScheduler;
    TwoTasksRun(n, p, quantum);
    var t := TwoTasks(n, p, quantum);
    assert t.slots[0] == Some(0) && t.slots[1] == Some(1) && |t.slots| == n;
    assert Duel(t, 0, 1).pcbs == t.pcbs;
  }

  /**
    After the two calls the layout is fair exactly when the first id is a multiple of the queue length; otherwise the
    created task is ready and no later call of `schedule` chooses it.
   */
  lemma TwoTasksFairIff(n: nat, p: Pcb, quantum: nat)
    requires n >= 2 && p.id != 1
    ensures var t := TwoTasks(n, p, quantum);
      && IsRun([Boot(n), InitScheduler(Boot(n), p), t], [DoInit(p), DoCreate(quantum)]) && |t.slots| > 0
      && (Fair(t) <==> p.id % n == 0)
      && (p.id % n != 0 ==> IsReady(t, 1) && forall k: nat :: Active(Iterate(t, k)) && Chosen(Iterate(t, k)) != Some(1))
  {
    hide Inv, TwoTasks, IsRun, InitScheduler, Duel, Chosen, Iterate, Fair, IsReady;
    TwoTasksRun(n, p, quantum);
    TwoTasksSlots(n, p, quantum);
    var t := TwoTasks(n, p, quantum);
    FairIff(t);
    if p.id % n != 0 {
      assert !(Dist(n, 0, KeyOf(t, 0)) < Dist(n, 0, 1));
      Starves(t, 0, 1);
    } else {
      assert Dist(n, 0, KeyOf(t, 0)) < Dist(n, 0, 1) && Dist(n, 1, KeyOf(t, 1)) < Dist(n, 1, 0);
    }
  }
}
