/** What every scheduler operation keeps: the count, the ids, and that only the current task runs. */
module QueueInvariant {
  import opened Options
  import opened RunQueue

  ghost function OccupiedSet(slots: seq<Option<nat>>): set<nat> {
    set i: nat | i < |slots| && slots[i].Some?
  }

  ghost predicate UniqueIds(s: Sched) {
    forall i: nat, j: nat :: Occupied(s, i) && Occupied(s, j) && Task(s, i).id == Task(s, j).id ==> i == j
  }

  /** A queued task with the current task's id is the current task. */
  ghost predicate CurrentIsUnique(s: Sched) {
    s.current.Some? && s.current.value < |s.pcbs| ==>
      forall i: nat :: Occupied(s, i) && Task(s, i).id == s.pcbs[s.current.value].id ==> s.slots[i] == s.current
  }

  ghost predicate OnlyCurrentRuns(s: Sched) {
    forall i: nat :: Occupied(s, i) && Task(s, i).state == Running ==> s.slots[i] == s.current
  }

  ghost predicate Inv(s: Sched) {
    && Shape(s) && s.taskCount == |OccupiedSet(s.slots)|
    && UniqueIds(s) && CurrentIsUnique(s) && OnlyCurrentRuns(s)
  }

  /** An id that neither a queued task nor the current task has. */
  ghost predicate FreshId(s: Sched, id: nat) {
    && (forall i: nat :: Occupied(s, i) ==> Task(s, i).id != id)
    && (s.current.Some? && s.current.value < |s.pcbs| ==> s.pcbs[s.current.value].id != id)
  }

  // ---------- Changes of task state

  /** `t` differs from `s` only inside blocks, and gives every block its old id. */
  ghost predicate SameIds(s: Sched, t: Sched) {
    && t.slots == s.slots && t.taskCount == s.taskCount && t.nextId == s.nextId && |t.pcbs| == |s.pcbs|
    && forall h :: 0 <= h < |s.pcbs| ==> t.pcbs[h].id == s.pcbs[h].id
  }

  lemma SameIdsKeeps(s: Sched, t: Sched)
    requires Inv(s) && SameIds(s, t) && OnlyCurrentRuns(t)
    requires t.current == s.current || t.current == None || (exists i: nat :: Occupied(t, i) && t.current == t.slots[i])
    ensures Inv(t)
  {
    assert forall i: nat :: Occupied(t, i) <==> Occupied(s, i);
    assert forall i: nat :: Occupied(t, i) ==> Task(t, i).id == Task(s, i).id;
  }

  lemma StateKeeps(s: Sched, h: nat, st: TaskState)
    requires Inv(s) && h < |s.pcbs| && (st == Running ==> s.current == Some(h))
    ensures Inv(WithState(s, h, st))
  {
    var t := WithState(s, h, st);
    assert forall i: nat :: Occupied(t, i) <==> Occupied(s, i);
    SameIdsKeeps(s, t);
  }

  // ---------- Searches

  lemma {:induction false} EmptyFromFinds(slots: seq<Option<nat>>, i: nat)
    ensures match EmptyFrom(slots, i)
      case None => forall k :: i <= k < |slots| ==> slots[k].Some?
      case Some(j) => i <= j < |slots| && slots[j] == None && forall k :: i <= k < j ==> slots[k].Some?
    decreases |slots| - i
  {
    if i < |slots| && slots[i].Some? {
      EmptyFromFinds(slots, i + 1);
    }
  }

  lemma {:induction false} SlotOfIdFinds(s: Sched, id: nat, i: nat)
    ensures match SlotOfId(s, id, i)
      case None => forall k: nat :: i <= k && Occupied(s, k) ==> Task(s, k).id != id
      case Some(j) => i <= j && Occupied(s, j) && Task(s, j).id == id
    decreases |s.slots| - i
  {
    if i < |s.slots| && !(Occupied(s, i) && Task(s, i).id == id) {
      SlotOfIdFinds(s, id, i + 1);
    }
  }

  lemma {:induction false} ProbeFinds(s: Sched, start: nat, i: nat)
    requires |s.slots| > 0
    ensures match ProbeFrom(s, start, i)
      case None => forall k: nat :: i <= k < |s.slots| ==> !IsReady(s, Probe(|s.slots|, start, k))
      case Some(j) => IsReady(s, j) && exists k: nat ::
        i <= k < |s.slots| && j == Probe(|s.slots|, start, k)
        && forall m: nat :: i <= m < k ==> !IsReady(s, Probe(|s.slots|, start, m))
    decreases |s.slots| - i
  {
    hide Probe, IsReady;
    if i < |s.slots| && !IsReady(s, Probe(|s.slots|, start, i)) {
      ProbeFinds(s, start, i + 1);
    }
  }

  // ---------- Changes of slots

  lemma {:induction false} CountBound(slots: seq<Option<nat>>)
    ensures |OccupiedSet(slots)| <= |slots|
    ensures |OccupiedSet(slots)| == |slots| <==> forall i :: 0 <= i < |slots| ==> slots[i].Some?
  {
    if slots == [] {
      assert OccupiedSet(slots) == {};
    } else {
      var n := |slots| - 1;
      CountBound(slots[..n]);
      assert OccupiedSet(slots) == OccupiedSet(slots[..n]) + (if slots[n].Some? then {n} else {});
      assert forall i :: 0 <= i < n ==> slots[..n][i] == slots[i];
    }
  }

  lemma FillCount(slots: seq<Option<nat>>, i: nat, h: nat)
    requires i < |slots| && slots[i] == None
    ensures |OccupiedSet(slots[i := Some(h)])| == |OccupiedSet(slots)| + 1
  {
    assert OccupiedSet(slots[i := Some(h)]) == OccupiedSet(slots) + {i};
  }

  lemma EmptyCount(slots: seq<Option<nat>>, i: nat)
    requires i < |slots| && slots[i].Some?
    ensures |OccupiedSet(slots[i := None])| == |OccupiedSet(slots)| - 1
  {
    assert OccupiedSet(slots[i := None]) == OccupiedSet(slots) - {i};
  }

  /** Putting a block with a new id into an empty slot. */
  lemma FillKeeps(s: Sched, i: nat, h: nat)
    requires Inv(s) && i < |s.slots| && s.slots[i] == None && h < |s.pcbs|
    requires forall k: nat :: Occupied(s, k) ==> Task(s, k).id != s.pcbs[h].id
    requires s.current == Some(h) ||
      (s.pcbs[h].state != Running && (s.current.Some? ==> s.pcbs[s.current.value].id != s.pcbs[h].id))
    ensures Inv(s.(slots := s.slots[i := Some(h)], taskCount := s.taskCount + 1))
  {
    var t := s.(slots := s.slots[i := Some(h)], taskCount := s.taskCount + 1);
    FillCount(s.slots, i, h);
    assert forall k: nat :: k != i ==> (Occupied(t, k) <==> Occupied(s, k));
    assert forall k: nat :: k != i && Occupied(t, k) ==> Task(t, k) == Task(s, k);
  }

  /** Emptying a slot. */
  lemma EmptyKeeps(s: Sched, i: nat)
    requires Inv(s) && Occupied(s, i)
    ensures Inv(s.(slots := s.slots[i := None], taskCount := s.taskCount - 1))
  {
    var t := s.(slots := s.slots[i := None], taskCount := s.taskCount - 1);
    EmptyCount(s.slots, i);
    assert forall k: nat :: Occupied(t, k) ==> Occupied(s, k) && Task(t, k) == Task(s, k);
  }

  /** One more block, not queued yet. */
  lemma AppendKeeps(s: Sched, p: Pcb)
    requires Inv(s)
    ensures Inv(s.(pcbs := s.pcbs + [p]))
  {
    var t := s.(pcbs := s.pcbs + [p]);
    assert forall k: nat :: Occupied(t, k) <==> Occupied(s, k);
    assert forall k: nat :: Occupied(t, k) ==> Task(t, k) == Task(s, k);
  }

  // ---------- The operations

  lemma DemoteKeeps(s: Sched)
    requires Inv(s) && s.current.Some?
    ensures Inv(Demote(s)) && Demote(s).current == s.current && Demote(s).slots == s.slots
        && Demote(s).locked == s.locked
    ensures forall i: nat :: Occupied(Demote(s), i) ==> Task(Demote(s), i).state != Running
  {
    if s.pcbs[s.current.value].state == Running {
      StateKeeps(s, s.current.value, Ready);
    }
  }

  lemma DispatchKeeps(t: Sched, j: nat)
    requires Inv(t) && t.current.Some? && IsReady(t, j)
    requires forall i: nat :: Occupied(t, i) ==> Task(t, i).state != Running
    ensures var (u, r) := Dispatch(t, j);
      && Inv(u) && Occupied(u, j) && u.slots[j] == u.current
      && (if r.Switched? then Task(u, j).state == Running && u.current != t.current else u == t)
      && (r == Switched(j) || r == Kept(j))
  {
    if Task(t, j).id != t.pcbs[t.current.value].id {
      var u := WithState(t, t.slots[j].value, Running).(current := t.slots[j]);
      assert forall i: nat :: Occupied(u, i) <==> Occupied(t, i);
      assert Occupied(u, j) && u.current == u.slots[j];
      OneRuns(t, u, j);
      SameIdsKeeps(t, u);
    }
  }

  /** `schedule` keeps the invariant; what it does depends on the lock, the current task and the search. */
  lemma ScheduleKeeps(s: Sched)
    requires Inv(s)
    ensures Inv(Schedule(s).0)
    ensures var (t, r) := Schedule(s);
      match r
      case NotCalled => false
      case LockedOut => s.locked && t == s
      case Panicked => !s.locked && s.current == None
      case Halted => forall i: nat :: !IsReady(t, i)
      case Kept(j) => IsReady(t, j) && t.slots[j] == t.current && t.current == s.current
      case Switched(j) =>
        Occupied(t, j) && t.slots[j] == t.current && Task(t, j).state == Running && t.current != s.current
  {
    if s.locked || s.current == None {
      LockKeeps(s);
    } else {
      hide Dispatch, FindNext;
      DemoteKeeps(s);
      HaltMeansNone(Demote(s));
      match FindNext(Demote(s))
      case None =>
      case Some(j) => DispatchKeeps(Demote(s), j);
    }
  }

  lemma LockKeeps(s: Sched)
    requires Inv(s)
    ensures Inv(s.(locked := true)) && Inv(s.(locked := false))
  {
    SameIdsKeeps(s, s.(locked := true));
    SameIdsKeeps(s, s.(locked := false));
  }

  lemma OneRuns(t: Sched, u: Sched, j: nat)
    requires Inv(t) && Occupied(t, j) && u == WithState(t, t.slots[j].value, Running).(current := t.slots[j])
    requires forall i: nat :: Occupied(t, i) ==> Task(t, i).state != Running
    ensures OnlyCurrentRuns(u)
  {
    forall i: nat | Occupied(u, i) && Task(u, i).state == Running ensures u.slots[i] == u.current {
      assert Occupied(t, i);
    }
  }

  lemma HaltMeansNone(s: Sched)
    requires Shape(s) && s.current.Some?
    ensures match FindNext(s)
      case None => forall i: nat :: !IsReady(s, i)
      case Some(j) => IsReady(s, j)
  {
    var n := |s.slots|;
    var start := s.pcbs[s.current.value].id % n + 1;
    ProbeFinds(s, start, 0);
    if FindNext(s) == None {
      forall i: nat ensures !IsReady(s, i) {
        if i < n {
          var k := if i >= start then i - start else i + n - start;
          ProbeHits(n, start, i, k);
          assert !IsReady(s, Probe(n, start, k));
        }
      }
    }
  }

  lemma ProbeHits(n: nat, start: nat, i: nat, k: nat)
    requires 1 <= start <= n && i < n && k == if i >= start then i - start else i + n - start
    ensures k < n && Probe(n, start, k) == i
  {
    if i < start {
      assert start + k == i + n;
      Wrapped(n, i);
    }
  }

  lemma Wrapped(n: nat, i: nat)
    requires i < n
    ensures (i + n) % n == i
  {
  }

  /** Block `h` is in the slot that was the first empty one; with no empty slot nothing changed. */
  ghost predicate QueuedFirst(s: Sched, t: Sched, h: nat) {
    if exists i: nat :: i < |s.slots| && s.slots[i] == None
    then exists i: nat ::
      && i < |s.slots| && s.slots[i] == None && (forall k :: 0 <= k < i ==> s.slots[k].Some?)
      && t.slots == s.slots[i := Some(h)]
    else t.slots == s.slots
  }

  lemma AddHandleKeeps(s: Sched, h: nat)
    requires Inv(s) && h < |s.pcbs|
    requires forall k: nat :: Occupied(s, k) ==> Task(s, k).id != s.pcbs[h].id
    requires s.current == Some(h) ||
      (s.pcbs[h].state != Running && (s.current.Some? ==> s.pcbs[s.current.value].id != s.pcbs[h].id))
    ensures Inv(AddHandle(s, h)) && QueuedFirst(s, AddHandle(s, h), h)
  {
    CountBound(s.slots);
    EmptyFromFinds(s.slots, 0);
    if s.taskCount < |s.slots| && EmptyFrom(s.slots, 0).Some? {
      FillKeeps(s, EmptyFrom(s.slots, 0).value, h);
    }
  }

  lemma AddTaskKeeps(s: Sched, p: Pcb)
    requires Inv(s) && FreshId(s, p.id) && p.state != Running
    ensures Inv(AddTask(s, p)) && AddTask(s, p).pcbs == s.pcbs + [p] && AddTask(s, p).current == s.current
    ensures QueuedFirst(s, AddTask(s, p), |s.pcbs|)
  {
    AppendKeeps(s, p);
    var t := s.(pcbs := s.pcbs + [p]);
    assert forall k: nat :: Occupied(t, k) ==> Occupied(s, k) && Task(t, k) == Task(s, k);
    AddHandleKeeps(t, |s.pcbs|);
  }

  /** `init_scheduler` when no queued task runs and none has the id of the first task. */
  lemma InitKeeps(s: Sched, p: Pcb)
    requires Inv(s) && forall i: nat :: Occupied(s, i) ==> Task(s, i).state != Running && Task(s, i).id != p.id
    ensures var t := InitScheduler(s, p);
      && Inv(t) && t.pcbs == s.pcbs + [p.(state := Running)] && t.current == Some(|s.pcbs|)
      && QueuedFirst(s, t, |s.pcbs|)
  {
    var h, q := |s.pcbs|, p.(state := Running);
    AppendKeeps(s, q);
    var t := s.(pcbs := s.pcbs + [q]);
    assert forall k: nat :: Occupied(t, k) ==> Occupied(s, k) && Task(t, k) == Task(s, k);
    CurrentKeeps(t, h);
    var u := t.(current := Some(h));
    assert forall k: nat :: Occupied(u, k) ==> Occupied(t, k) && Task(u, k) == Task(t, k);
    AddHandleKeeps(u, h);
  }

  /** A task that is not queued becomes current while no queued task runs. */
  lemma CurrentKeeps(t: Sched, h: nat)
    requires Inv(t) && h < |t.pcbs|
    requires forall i: nat :: Occupied(t, i) ==> Task(t, i).state != Running && Task(t, i).id != t.pcbs[h].id
    ensures Inv(t.(current := Some(h)))
  {
    var u := t.(current := Some(h));
    assert forall k: nat :: Occupied(u, k) ==> Occupied(t, k) && Task(u, k) == Task(t, k);
  }

  /** With an accurate count, some slot is empty exactly when the count is below the queue length. */
  lemma RoomIff(s: Sched)
    requires Shape(s) && s.taskCount == |OccupiedSet(s.slots)|
    ensures s.taskCount < |s.slots| <==> EmptyFrom(s.slots, 0).Some?
  {
    CountBound(s.slots);
    EmptyFromFinds(s.slots, 0);
  }

  /** Appending a block with the next id and moving past that id. */
  lemma IssueKeeps(s: Sched, p: Pcb)
    requires Inv(s) && p.id == s.nextId && FreshId(s, s.nextId)
    ensures var u := s.(pcbs := s.pcbs + [p], nextId := s.nextId + 1);
      && Inv(u) && (forall k: nat :: Occupied(u, k) ==> Task(u, k).id != p.id)
      && (u.current.Some? ==> u.current.value < |u.pcbs| && u.pcbs[u.current.value].id != p.id)
      && (forall k: nat :: Occupied(s, k) ==> Task(s, k).id != s.nextId)
  {
    AppendKeeps(s, p);
    var t := s.(pcbs := s.pcbs + [p]);
    var u := t.(nextId := s.nextId + 1);
    assert forall k: nat :: Occupied(u, k) <==> Occupied(s, k);
    assert forall k: nat :: Occupied(u, k) ==> Task(u, k) == Task(s, k) && Task(t, k) == Task(s, k);
  }

  lemma CreateRoom(s: Sched)
    requires Inv(s)
    ensures s.taskCount >= |s.slots| <==> forall i :: 0 <= i < |s.slots| ==> s.slots[i].Some?
    ensures s.taskCount < |s.slots| ==> EmptyFrom(s.slots, 0).Some?
    ensures EmptyFrom(s.slots, 0).Some? ==> var j := EmptyFrom(s.slots, 0).value;
      j < |s.slots| && s.slots[j] == None && forall k :: 0 <= k < j ==> s.slots[k].Some?
  {
    hide EmptyFrom, OccupiedSet, UniqueIds, CurrentIsUnique, OnlyCurrentRuns;
    RoomIff(s);
    CountBound(s.slots);
    EmptyFromFinds(s.slots, 0);
  }

  /**
    `create_task` keeps the invariant while the next id is fresh, and returns nothing exactly when every slot is
    full: the search for a slot never comes back empty-handed.
   */
  lemma CreateKeeps(s: Sched, quantum: nat)
    requires Inv(s) && (s.taskCount < |s.slots| ==> FreshId(s, s.nextId))
    ensures var (t, r) := CreateTask(s, quantum);
      && Inv(t)
      && (r == None <==> forall i :: 0 <= i < |s.slots| ==> s.slots[i].Some?)
      && (r == None ==> t == s)
      && (r.Some? ==>
            && r.value == s.nextId && t.nextId == s.nextId + 1
            && (forall i: nat :: Occupied(s, i) ==> Task(s, i).id != r.value)
            && QueuedFirst(s, t, |s.pcbs|) && t.pcbs == s.pcbs + [Pcb(r.value, Ready, 0, quantum, 0, 0)])
  {
    hide Inv, FreshId, EmptyFrom;
    CreateRoom(s);
    if s.taskCount < |s.slots| {
      var i := EmptyFrom(s.slots, 0).value;
      var p := Pcb(s.nextId, Ready, 0, quantum, 0, 0);
      IssueKeeps(s, p);
      FillKeeps(s.(pcbs := s.pcbs + [p], nextId := s.nextId + 1), i, |s.pcbs|);
    }
  }

  /** `remove_current_task`. */
  lemma RemoveKeeps(s: Sched)
    requires Inv(s)
    ensures Inv(RemoveCurrent(s))
    ensures RemoveCurrent(s).current == None && |RemoveCurrent(s).slots| == |s.slots|
    ensures s.current.Some? ==> forall i: nat :: i < |s.slots| ==>
      RemoveCurrent(s).slots[i] == if s.slots[i] == s.current then None else s.slots[i]
  {
    if s.current == None {
      assert RemoveCurrent(s) == s;
    } else {
      var cur := s.current.value;
      var t := s.(current := None);
      SlotOfIdFinds(t, s.pcbs[cur].id, 0);
      match SlotOfId(t, s.pcbs[cur].id, 0)
      case None =>
        RunsNowhere(s);
        SameIdsKeeps(s, t);
      case Some(i) =>
        assert Occupied(s, i) && Task(s, i).id == s.pcbs[cur].id;
        EmptyKeeps(s, i);
        var u := s.(slots := s.slots[i := None], taskCount := s.taskCount - 1);
        RunsNowhere(u);
        SameIdsKeeps(u, u.(current := None));
    }
  }

  /** If the current task is not queued, no queued task runs. */
  lemma RunsNowhere(s: Sched)
    requires Inv(s) && s.current.Some?
    ensures (forall i: nat :: Occupied(s, i) ==> Task(s, i).id != s.pcbs[s.current.value].id) ==>
        OnlyCurrentRuns(s.(current := None))
  {
  }

  /** A setter changes the state of the task with the given id and of no other. */
  lemma SetTaskStateKeeps(s: Sched, id: nat, st: TaskState)
    requires Inv(s) && st != Running
    ensures Inv(SetTaskState(s, id, st)) && SetTaskState(s, id, st).slots == s.slots
    ensures forall i: nat :: Occupied(s, i) ==>
      Occupied(SetTaskState(s, id, st), i)
      && Task(SetTaskState(s, id, st), i) == if Task(s, i).id == id then Task(s, i).(state := st) else Task(s, i)
  {
    SlotOfIdFinds(s, id, 0);
    if SlotOfId(s, id, 0).Some? {
      StateKeeps(s, s.slots[SlotOfId(s, id, 0).value].value, st);
    }
  }

  lemma SetCurrentStateKeeps(s: Sched, st: TaskState)
    requires Inv(s)
    ensures Inv(SetCurrentState(s, st))
  {
    if s.current.Some? {
      StateKeeps(s, s.current.value, st);
    }
  }

  /** What `wake_up_tasks` makes of a task: a sleeper whose time has come is ready, every other task is as before. */
  function Woken(p: Pcb, now: nat): Pcb {
    if p.state == Sleeping && p.wakeTime <= now then p.(state := Ready) else p
  }

  lemma {:induction false} WakeKeeps(s: Sched, i: nat)
    requires Inv(s)
    ensures var t := WakeFrom(s, i);
      && Inv(t) && t.slots == s.slots && t.current == s.current && |t.pcbs| == |s.pcbs|
      && (forall k: nat :: Occupied(s, k) ==> Task(t, k) == if k < i then Task(s, k) else Woken(Task(s, k), Now(s)))
    decreases |s.slots| - i
  {
    hide Woken;
    if i < |s.slots| {
      if Occupied(s, i) && Task(s, i).state == Sleeping && Task(s, i).wakeTime <= Now(s) {
        StateKeeps(s, s.slots[i].value, Ready);
        var t := WithState(s, s.slots[i].value, Ready);
        WakeKeeps(t, i + 1);
        OneWoken(s, i);
      } else {
        WakeKeeps(s, i + 1);
        NotWoken(s, i);
      }
    }
  }

  lemma OneWoken(s: Sched, i: nat)
    requires Inv(s) && Occupied(s, i) && Task(s, i).state == Sleeping && Task(s, i).wakeTime <= Now(s)
    ensures var t := WithState(s, s.slots[i].value, Ready);
      && Now(t) == Now(s) && Task(t, i) == Woken(Task(s, i), Now(s))
      && (forall k: nat :: Occupied(s, k) && k != i ==> Occupied(t, k) && Task(t, k) == Task(s, k))
  {
    var t := WithState(s, s.slots[i].value, Ready);
    forall k: nat | Occupied(s, k) && k != i ensures Occupied(t, k) && Task(t, k) == Task(s, k) {
      assert Task(s, k).id != Task(s, i).id;
    }
  }

  lemma NotWoken(s: Sched, i: nat)
    requires !(Occupied(s, i) && Task(s, i).state == Sleeping && Task(s, i).wakeTime <= Now(s))
    ensures Occupied(s, i) ==> Woken(Task(s, i), Now(s)) == Task(s, i)
  {
  }

  /** `cleanup_zombie_tasks` empties exactly the slots that hold zombies. */
  lemma {:induction false} CleanKeeps(s: Sched, i: nat)
    requires Inv(s)
    ensures var t := CleanFrom(s, i);
      && Inv(t) && t.pcbs == s.pcbs && t.current == s.current && |t.slots| == |s.slots|
      && (forall k: nat :: k < |s.slots| ==>
            t.slots[k] == if k >= i && Occupied(s, k) && Task(s, k).state == Zombie then None else s.slots[k])
    decreases |s.slots| - i
  {
    hide Inv;
    if i < |s.slots| {
      if Occupied(s, i) && Task(s, i).state == Zombie {
        EmptyKeeps(s, i);
        CleanKeeps(s.(slots := s.slots[i := None], taskCount := s.taskCount - 1), i + 1);
      } else {
        CleanKeeps(s, i + 1);
      }
    }
  }

  /** A change of a block's counters that does not set it running. */
  lemma BlockKeeps(s: Sched, h: nat, p: Pcb)
    requires Inv(s) && h < |s.pcbs| && p.id == s.pcbs[h].id && (p.state == Running ==> s.pcbs[h].state == Running)
    ensures Inv(s.(pcbs := s.pcbs[h := p]))
  {
    var t := s.(pcbs := s.pcbs[h := p]);
    assert forall i: nat :: Occupied(t, i) <==> Occupied(s, i);
    SameIdsKeeps(s, t);
  }

  lemma InRange(s: Sched)
    requires Inv(s)
    ensures |s.slots| > 0 && (s.current.Some? ==> s.current.value < |s.pcbs|)
  {
  }

  lemma SleepKeeps(s: Sched, duration: nat)
    requires Inv(s)
    ensures Inv(SleepCurrent(s, duration).0)
  {
    hide Inv, Schedule;
    InRange(s);
    if s.current.Some? {
      var h := s.current.value;
      var p := s.pcbs[h].(wakeTime := Now(s) + duration, state := Sleeping);
      BlockKeeps(s, h, p);
      ScheduleKeeps(s.(pcbs := s.pcbs[h := p]));
    }
  }

  lemma TickKeeps(s: Sched)
    requires Inv(s)
    ensures Inv(Tick(s).0)
  {
    hide Inv, Schedule;
    InRange(s);
    if s.current.Some? {
      var h := s.current.value;
      var p := s.pcbs[h].(tickCount := s.pcbs[h].tickCount + 1);
      BlockKeeps(s, h, p);
      BlockKeeps(s, h, p.(tickCount := 0));
      ScheduleKeeps(s.(pcbs := s.pcbs[h := p.(tickCount := 0)]));
    } else {
      ScheduleKeeps(s);
    }
  }

  ghost function Ticks(s: Sched, k: nat): Sched
    requires |s.slots| > 0
    ensures |Ticks(s, k).slots| > 0
  {
    if k == 0 then s else
      var t := Ticks(s, k - 1);
      TickSlots(t);
      Tick(t).0
  }

  lemma TickSlots(s: Sched)
    requires |s.slots| > 0
    ensures Tick(s).0.slots == s.slots
  {
  }

  /** A current task is left alone for as many ticks as its time slice has left, and the next tick calls `schedule`. */
  lemma {:induction false} QuantumRuns(s: Sched, k: nat)
    requires Inv(s) && s.current.Some? && s.pcbs[s.current.value].tickCount + k < s.pcbs[s.current.value].timeSlice
    ensures var t := Ticks(s, k);
      && t.slots == s.slots && t.current == s.current && |t.pcbs| == |s.pcbs|
      && t.pcbs[s.current.value] == s.pcbs[s.current.value].(tickCount := s.pcbs[s.current.value].tickCount + k)
      && (Tick(t).1 == NotCalled <==> s.pcbs[s.current.value].tickCount + k + 1 < s.pcbs[s.current.value].timeSlice)
  {
    if k > 0 {
      QuantumRuns(s, k - 1);
    }
    CalledOutcome(Ticks(s, k));
  }

  lemma CalledOutcome(s: Sched)
    requires |s.slots| > 0
    ensures Tick(s).1 == NotCalled <==>
      s.current.Some? && s.current.value < |s.pcbs|
        && s.pcbs[s.current.value].tickCount + 1 < s.pcbs[s.current.value].timeSlice
  {
  }

  // ---------- Every run

  datatype Op =
    | DoInit(first: Pcb)
    | DoSchedule
    | DoAdd(task: Pcb)
    | DoCreate(quantum: nat)
    | DoRemoveCurrent
    | DoSetState(id: nat, state: TaskState)
    | DoSetCurrentState(state: TaskState)
    | DoWake
    | DoSleep(duration: nat)
    | DoTick
    | DoClean
    | DoLock(on: bool)
    | DoReset

  function Step(s: Sched, op: Op): Sched
    requires |s.slots| > 0
  {
    match op
    case DoInit(p) => InitScheduler(s, p)
    case DoSchedule => Schedule(s).0
    case DoAdd(p) => AddTask(s, p)
    case DoCreate(quantum) => CreateTask(s, quantum).0
    case DoRemoveCurrent => RemoveCurrent(s)
    case DoSetState(id, st) => SetTaskState(s, id, st)
    case DoSetCurrentState(st) => SetCurrentState(s, st)
    case DoWake => WakeFrom(s, 0)
    case DoSleep(duration) => SleepCurrent(s, duration).0
    case DoTick => Tick(s).0
    case DoClean => CleanFrom(s, 0)
    case DoLock(on) => s.(locked := on)
    case DoReset => Reset(s)
  }

  /**
    Ids are fresh when they are queued, no second running task is added, and setters set only the states that they
    offer.
   */
  ghost predicate Allowed(s: Sched, op: Op) {
    match op
    case DoInit(p) => forall i: nat :: Occupied(s, i) ==> Task(s, i).state != Running && Task(s, i).id != p.id
    case DoAdd(p) => FreshId(s, p.id) && p.state != Running
    case DoCreate(_) => s.taskCount < |s.slots| ==> FreshId(s, s.nextId)
    case DoSetState(_, st) => st != Running
    case _ => true
  }

  lemma ResetKeeps(s: Sched)
    requires Inv(s)
    ensures Inv(Reset(s))
  {
    assert OccupiedSet(Reset(s).slots) == {};
  }

  lemma StepKeeps(s: Sched, op: Op)
    requires Inv(s) && Allowed(s, op)
    ensures Inv(Step(s, op)) && |Step(s, op).slots| > 0
  {
    hide FreshId;
    match op
    case DoInit(p) => InitKeeps(s, p);
    case DoSchedule => ScheduleKeeps(s);
    case DoAdd(p) => AddTaskKeeps(s, p);
    case DoCreate(quantum) => CreateKeeps(s, quantum);
    case DoRemoveCurrent => RemoveKeeps(s);
    case DoSetState(id, st) => SetTaskStateKeeps(s, id, st);
    case DoSetCurrentState(st) => SetCurrentStateKeeps(s, st);
    case DoWake => WakeKeeps(s, 0);
    case DoSleep(duration) => SleepKeeps(s, duration);
    case DoTick => TickKeeps(s);
    case DoClean => CleanKeeps(s, 0);
    case DoLock(on) => LockKeeps(s);
    case DoReset => ResetKeeps(s);
  }

  /** A sequence of states, each obtained from the one before by an allowed operation. */
  ghost predicate IsRun(states: seq<Sched>, ops: seq<Op>) {
    && |states| == |ops| + 1
    && (forall k :: 0 <= k < |ops| ==>
          |states[k].slots| > 0 && Allowed(states[k], ops[k]) && states[k + 1] == Step(states[k], ops[k]))
  }

  /** In every run from boot the count is the number of queued tasks, ids are unique, and only the current task runs. */
  lemma {:induction false} RunKeeps(n: nat, states: seq<Sched>, ops: seq<Op>, k: nat)
    requires n > 0 && IsRun(states, ops) && states[0] == Boot(n) && k < |states|
    ensures Inv(states[k])
  {
    hide Inv, Allowed, Step;
    if k == 0 {
      BootInv(n);
    } else {
      RunKeeps(n, states, ops, k - 1);
      assert states[k - 1 + 1] == Step(states[k - 1], ops[k - 1]);
      StepKeeps(states[k - 1], ops[k - 1]);
    }
  }

  lemma BootInv(n: nat)
    requires n > 0
    ensures Inv(Boot(n))
  {
    assert OccupiedSet(Boot(n).slots) == {};
  }
}
