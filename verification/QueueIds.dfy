/** What every scheduler operation keeps without any condition on its caller, and when task ids stay unique. */
module QueueIds {
  import opened Options
  import opened RunQueue
  import opened QueueInvariant

  /** The stored count is the number of queued tasks. */
  ghost predicate Counted(s: Sched) {
    Shape(s) && s.taskCount == |OccupiedSet(s.slots)|
  }

  /** A queued task has the given id. */
  ghost predicate Queued(s: Sched, id: nat) {
    exists i: nat :: Occupied(s, i) && Task(s, i).id == id
  }

  // ---------- Operations that only change blocks

  lemma SameCounted(s: Sched, t: Sched)
    requires Counted(s) && SameIds(s, t) && (t.current.Some? ==> t.current.value < |t.pcbs|)
    ensures Counted(t) && (UniqueIds(t) <==> UniqueIds(s))
  {
    assert forall i: nat :: Occupied(t, i) <==> Occupied(s, i);
    assert forall i: nat :: Occupied(t, i) ==> Task(t, i).id == Task(s, i).id;
  }

  lemma ScheduleSame(s: Sched)
    requires Shape(s)
    ensures var t := Schedule(s).0; SameIds(s, t) && (t.current.Some? ==> t.current.value < |t.pcbs|)
  {
    hide FindNext;
  }

  lemma {:induction false} WakeSame(s: Sched, i: nat)
    ensures SameIds(s, WakeFrom(s, i)) && WakeFrom(s, i).current == s.current
    decreases |s.slots| - i
  {
    if i < |s.slots| {
      if Occupied(s, i) && Task(s, i).state == Sleeping && Task(s, i).wakeTime <= Now(s) {
        WakeSame(WithState(s, s.slots[i].value, Ready), i + 1);
      } else {
        WakeSame(s, i + 1);
      }
    }
  }

  lemma TickSame(s: Sched)
    requires Shape(s)
    ensures var t := Tick(s).0; SameIds(s, t) && (t.current.Some? ==> t.current.value < |t.pcbs|)
  {
    hide Schedule;
    ScheduleSame(s);
    if s.current.Some? {
      var h := s.current.value;
      ScheduleSame(s.(pcbs := s.pcbs[h := s.pcbs[h].(tickCount := 0)]));
    }
  }

  lemma SleepSame(s: Sched, duration: nat)
    requires Shape(s)
    ensures var t := SleepCurrent(s, duration).0; SameIds(s, t) && (t.current.Some? ==> t.current.value < |t.pcbs|)
  {
    hide Schedule;
    if s.current.Some? {
      var h := s.current.value;
      ScheduleSame(s.(pcbs := s.pcbs[h := s.pcbs[h].(wakeTime := Now(s) + duration, state := Sleeping)]));
    }
  }

  // ---------- Operations that empty slots

  lemma EmptyCounted(s: Sched, i: nat)
    requires Counted(s) && Occupied(s, i)
    ensures var t := s.(slots := s.slots[i := None], taskCount := s.taskCount - 1);
      Counted(t) && (UniqueIds(s) ==> UniqueIds(t))
  {
    var t := s.(slots := s.slots[i := None], taskCount := s.taskCount - 1);
    EmptyCount(s.slots, i);
    assert forall k: nat :: Occupied(t, k) ==> Occupied(s, k) && Task(t, k) == Task(s, k);
  }

  lemma {:induction false} CleanCounted(s: Sched, i: nat)
    requires Counted(s)
    ensures var t := CleanFrom(s, i); Counted(t) && |t.slots| == |s.slots| && (UniqueIds(s) ==> UniqueIds(t))
    decreases |s.slots| - i
  {
    hide Counted, UniqueIds;
    if i < |s.slots| {
      if Occupied(s, i) && Task(s, i).state == Zombie {
        EmptyCounted(s, i);
        CleanCounted(s.(slots := s.slots[i := None], taskCount := s.taskCount - 1), i + 1);
      } else {
        CleanCounted(s, i + 1);
      }
    }
  }

  lemma RemoveCounted(s: Sched)
    requires Counted(s)
    ensures var t := RemoveCurrent(s); Counted(t) && |t.slots| == |s.slots| && (UniqueIds(s) ==> UniqueIds(t))
  {
    hide UniqueIds;
    var t := s.(current := None);
    SameCounted(s, t);
    if s.current.Some? {
      var id := s.pcbs[s.current.value].id;
      SlotOfIdFinds(t, id, 0);
      if SlotOfId(t, id, 0).Some? {
        EmptyCounted(t, SlotOfId(t, id, 0).value);
      }
    }
  }

  // ---------- Operations that queue a task

  lemma FillCounted(s: Sched, t: Sched, i: nat, p: Pcb)
    requires Counted(s) && i < |s.slots| && s.slots[i] == None && t.pcbs == s.pcbs + [p]
    requires t.slots == s.slots[i := Some(|s.pcbs|)] && t.taskCount == s.taskCount + 1
    requires t.current.Some? ==> t.current.value < |t.pcbs|
    ensures Counted(t) && (UniqueIds(s) ==> (UniqueIds(t) <==> !Queued(s, p.id)))
  {
    FillCount(s.slots, i, |s.pcbs|);
    assert Occupied(t, i) && Task(t, i) == p;
    assert forall k: nat :: k != i ==> (Occupied(t, k) <==> Occupied(s, k));
    assert forall k: nat :: k != i && Occupied(t, k) ==> Task(t, k) == Task(s, k);
  }

  lemma AppendCounted(s: Sched, t: Sched, p: Pcb)
    requires Counted(s) && t.pcbs == s.pcbs + [p] && t.slots == s.slots && t.taskCount == s.taskCount
    requires t.current.Some? ==> t.current.value < |t.pcbs|
    ensures Counted(t) && (UniqueIds(s) ==> UniqueIds(t))
  {
    assert forall k: nat :: Occupied(t, k) <==> Occupied(s, k);
    assert forall k: nat :: Occupied(t, k) ==> Task(t, k) == Task(s, k);
  }

  predicate HasRoom(s: Sched) {
    s.taskCount < |s.slots|
  }

  lemma AddCounted(s: Sched, t: Sched, p: Pcb)
    requires Counted(s) && t.pcbs == s.pcbs + [p] && t.slots == s.slots && t.taskCount == s.taskCount
    requires t.current.Some? ==> t.current.value < |t.pcbs|
    ensures var u := AddHandle(t, |s.pcbs|);
      && Counted(u) && |u.slots| == |s.slots|
      && (UniqueIds(s) ==> (UniqueIds(u) <==> (HasRoom(s) ==> !Queued(s, p.id))))
  {
    hide UniqueIds, Queued;
    RoomIff(s);
    EmptyFromFinds(s.slots, 0);
    AppendCounted(s, t, p);
    if HasRoom(s) {
      FillCounted(s, AddHandle(t, |s.pcbs|), EmptyFrom(s.slots, 0).value, p);
    }
  }

  lemma CreateCounted(s: Sched, quantum: nat)
    requires Counted(s)
    ensures var u := CreateTask(s, quantum).0;
      && Counted(u) && |u.slots| == |s.slots|
      && (UniqueIds(s) ==> (UniqueIds(u) <==> (HasRoom(s) ==> !Queued(s, s.nextId))))
  {
    hide UniqueIds, Queued;
    RoomIff(s);
    EmptyFromFinds(s.slots, 0);
    if HasRoom(s) {
      FillCounted(s, CreateTask(s, quantum).0, EmptyFrom(s.slots, 0).value, Pcb(s.nextId, Ready, 0, quantum, 0, 0));
    }
  }

  // ---------- Every operation

  /** The id that an operation puts into the queue, if it puts one there. */
  function Enqueues(s: Sched, op: Op): Option<nat> {
    if !HasRoom(s) then None
    else
      match op
      case DoInit(p) => Some(p.id)
      case DoAdd(p) => Some(p.id)
      case DoCreate(_) => Some(s.nextId)
      case _ => None
  }

  /** What an operation queues has an id that no queued task has. */
  ghost predicate NewId(s: Sched, op: Op) {
    Enqueues(s, op).Some? ==> !Queued(s, Enqueues(s, op).value)
  }

  /**
    Every operation, whatever its arguments, keeps the count exact; ids stay unique exactly when a queued id is new.
   */
  lemma StepCounted(s: Sched, op: Op)
    requires Counted(s)
    ensures var t := Step(s, op);
      Counted(t) && |t.slots| == |s.slots| && (UniqueIds(s) ==> (UniqueIds(t) <==> NewId(s, op)))
  {
    hide UniqueIds, Queued, Schedule, Tick, SleepCurrent, WakeFrom, CleanFrom, RemoveCurrent, CreateTask, AddHandle;
    match op
    case DoInit(p) =>
      var q := p.(state := Running);
      AddCounted(s, s.(pcbs := s.pcbs + [q], current := Some(|s.pcbs|)), q);
    case DoSchedule => ScheduleSame(s); SameCounted(s, Schedule(s).0);
    case DoAdd(p) => AddCounted(s, s.(pcbs := s.pcbs + [p]), p);
    case DoCreate(quantum) => CreateCounted(s, quantum);
    case DoRemoveCurrent => RemoveCounted(s);
    case DoSetState(id, st) => SameCounted(s, SetTaskState(s, id, st));
    case DoSetCurrentState(st) => SameCounted(s, SetCurrentState(s, st));
    case DoWake => WakeSame(s, 0); SameCounted(s, WakeFrom(s, 0));
    case DoSleep(duration) => SleepSame(s, duration); SameCounted(s, SleepCurrent(s, duration).0);
    case DoTick => TickSame(s); SameCounted(s, Tick(s).0);
    case DoClean => CleanCounted(s, 0);
    case DoLock(on) => SameCounted(s, s.(locked := on));
    case DoReset => ResetCounted(s);
  }

  lemma ResetCounted(s: Sched)
    requires Counted(s)
    ensures Counted(Reset(s)) && UniqueIds(Reset(s))
  {
    assert OccupiedSet(Reset(s).slots) == {};
  }

  // ---------- Every run

  /** A sequence of states, each obtained from the one before by any operation at all. */
  ghost predicate AnyRun(states: seq<Sched>, ops: seq<Op>) {
    && |states| == |ops| + 1
    && (forall k :: 0 <= k < |ops| ==> |states[k].slots| > 0 && states[k + 1] == Step(states[k], ops[k]))
  }

  /** In every run from boot, whatever the callers pass, the count is the number of queued tasks. */
  lemma {:induction false} RunCounted(n: nat, states: seq<Sched>, ops: seq<Op>, k: nat)
    requires n > 0 && AnyRun(states, ops) && states[0] == Boot(n) && k < |states|
    ensures Counted(states[k]) && |states[k].slots| == n
  {
    hide Step, Enqueues, UniqueIds;
    if k == 0 {
      BootInv(n);
    } else {
      RunCounted(n, states, ops, k - 1);
      assert states[k - 1 + 1] == Step(states[k - 1], ops[k - 1]);
      StepCounted(states[k - 1], ops[k - 1]);
    }
  }

  /** Ids are unique in every state up to `k` exactly when each id was new at the moment it was queued. */
  lemma {:induction false} RunUniqueIff(n: nat, states: seq<Sched>, ops: seq<Op>, k: nat)
    requires n > 0 && AnyRun(states, ops) && states[0] == Boot(n) && k < |states|
    ensures (forall j :: 0 <= j <= k ==> UniqueIds(states[j])) <==>
        (forall j :: 0 <= j < k ==> NewId(states[j], ops[j]))
  {
    hide Step, NewId, UniqueIds, Counted;
    if k == 0 {
      BootInv(n);
      assert Inv(states[0]);
    } else {
      RunUniqueIff(n, states, ops, k - 1);
      RunCounted(n, states, ops, k - 1);
      assert states[k - 1 + 1] == Step(states[k - 1], ops[k - 1]);
      StepCounted(states[k - 1], ops[k - 1]);
    }
  }

  /** After `init_scheduler` with a task of id 1, the first `create_task` queues a second task of id 1. */
  lemma DuplicateAfterBoot(n: nat, p: Pcb, quantum: nat)
    requires n >= 2 && p.id == 1
    ensures var s := InitScheduler(Boot(n), p);
      var t := CreateTask(s, quantum).0;
      && AnyRun([Boot(n), s, t], [DoInit(p), DoCreate(quantum)])
      && Occupied(t, 0) && Occupied(t, 1) && Task(t, 0).id == Task(t, 1).id && !UniqueIds(t)
  {
    var b := Boot(n);
    var s := InitScheduler(b, p);
    var t := CreateTask(s, quantum).0;
    assert EmptyFrom(b.slots, 0) == Some(0);
    assert s.slots == b.slots[0 := Some(0)];
    assert EmptyFrom(s.slots, 0) == EmptyFrom(s.slots, 1) == Some(1);
    assert Occupied(t, 0) && Occupied(t, 1);
    var states, ops := [b, s, t], [DoInit(p), DoCreate(quantum)];
    assert Step(states[0], ops[0]) == states[1] && Step(states[1], ops[1]) == states[2];
  }
}
