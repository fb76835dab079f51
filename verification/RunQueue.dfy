/**
  The scheduler of src/scheduler/scheduler.rs as a value, for a run queue of any length.
  Process control blocks live in `pcbs`; the run queue and the current task name them by index, so that the current
  task and its queue slot share one block, as the references in the source do.
 */
module RunQueue {
  import opened Options

  datatype TaskState = Running | Ready | Blocked | Zombie | Sleeping | Idle

  datatype Pcb = Pcb(id: nat, state: TaskState, tickCount: nat, timeSlice: nat, wakeTime: nat, executionTime: nat)

  datatype Sched = Sched(
    pcbs: seq<Pcb>, slots: seq<Option<nat>>, current: Option<nat>, taskCount: int, locked: bool, nextId: nat)

  /** How a call of `schedule` ended; `NotCalled` where an operation had no reason to call it. */
  datatype Outcome = NotCalled | LockedOut | Panicked | Halted | Kept(slot: nat) | Switched(slot: nat)

  /** Queue slots and the current task name existing blocks. */
  ghost predicate Shape(s: Sched) {
    && |s.slots| > 0
    && (forall i :: 0 <= i < |s.slots| && s.slots[i].Some? ==> s.slots[i].value < |s.pcbs|)
    && (s.current.Some? ==> s.current.value < |s.pcbs|)
  }

  function Task(s: Sched, i: nat): Pcb
    requires i < |s.slots| && s.slots[i].Some? && s.slots[i].value < |s.pcbs|
  {
    s.pcbs[s.slots[i].value]
  }

  predicate Occupied(s: Sched, i: nat) {
    i < |s.slots| && s.slots[i].Some? && s.slots[i].value < |s.pcbs|
  }

  predicate IsReady(s: Sched, i: nat) {
    Occupied(s, i) && Task(s, i).state == Ready
  }

  function WithState(s: Sched, h: nat, st: TaskState): Sched
    requires h < |s.pcbs|
  {
    s.(pcbs := s.pcbs[h := s.pcbs[h].(state := st)])
  }

  // ---------- Searches

  /** The slot that probe `k` of the cyclic search looks at. */
  function Probe(n: nat, start: nat, k: nat): nat
    requires n > 0
  {
    (start + k) % n
  }

  /** The first slot of `find_next_task`'s cyclic search, from its `i`-th probe on, that holds a ready task. */
  function ProbeFrom(s: Sched, start: nat, i: nat): Option<nat>
    requires |s.slots| > 0
    decreases |s.slots| - i
  {
    if i >= |s.slots| then None
    else if IsReady(s, Probe(|s.slots|, start, i)) then Some(Probe(|s.slots|, start, i))
    else ProbeFrom(s, start, i + 1)
  }

  /** The search starts after the slot that the current task's id, not its position, points to. */
  function FindNext(s: Sched): Option<nat>
    requires |s.slots| > 0 && s.current.Some? && s.current.value < |s.pcbs|
  {
    ProbeFrom(s, s.pcbs[s.current.value].id % |s.slots| + 1, 0)
  }

  /** The first empty slot from `i` on. */
  function EmptyFrom(slots: seq<Option<nat>>, i: nat): Option<nat>
    decreases |slots| - i
  {
    if i >= |slots| then None else if slots[i] == None then Some(i) else EmptyFrom(slots, i + 1)
  }

  /** The first slot from `i` on whose task has the given id. */
  function SlotOfId(s: Sched, id: nat, i: nat): Option<nat>
    decreases |s.slots| - i
  {
    if i >= |s.slots| then None
    else if Occupied(s, i) && Task(s, i).id == id then Some(i)
    else SlotOfId(s, id, i + 1)
  }

  // ---------- Operations

  /** A running current task becomes ready before the search. */
  function Demote(s: Sched): Sched
    requires s.current.Some? && s.current.value < |s.pcbs|
  {
    if s.pcbs[s.current.value].state == Running then WithState(s, s.current.value, Ready) else s
  }

  /** Switches to the task in slot `j`, unless it is the current one: then its state is left as it is. */
  function Dispatch(s: Sched, j: nat): (Sched, Outcome)
    requires s.current.Some? && s.current.value < |s.pcbs| && Occupied(s, j)
  {
    if Task(s, j).id != s.pcbs[s.current.value].id
    then (WithState(s, s.slots[j].value, Running).(current := s.slots[j]), Switched(j))
    else (s, Kept(j))
  }

  function Schedule(s: Sched): (Sched, Outcome)
    requires |s.slots| > 0
  {
    if s.locked then (s, LockedOut)
    else if s.current == None || s.current.value >= |s.pcbs| then (s.(locked := true), Panicked)
    else
      var t := Demote(s);
      match FindNext(t)
      case None => (t, Halted)
      case Some(j) => if Occupied(t, j) then Dispatch(t, j) else (t, Halted)
  }

  /** `add_task` for a block that already exists. */
  function AddHandle(s: Sched, h: nat): Sched {
    if s.taskCount >= |s.slots| then s
    else
      match EmptyFrom(s.slots, 0)
      case None => s
      case Some(i) => if i < |s.slots| then s.(slots := s.slots[i := Some(h)], taskCount := s.taskCount + 1) else s
  }

  function AddTask(s: Sched, p: Pcb): Sched {
    AddHandle(s.(pcbs := s.pcbs + [p]), |s.pcbs|)
  }

  function InitScheduler(s: Sched, p: Pcb): Sched {
    AddHandle(s.(pcbs := s.pcbs + [p.(state := Running)], current := Some(|s.pcbs|)), |s.pcbs|)
  }

  /** `create_task`; `quantum` is the time slice that a new block starts with. */
  function CreateTask(s: Sched, quantum: nat): (Sched, Option<nat>) {
    if s.taskCount >= |s.slots| then (s, None)
    else
      var id := s.nextId;
      var t := s.(nextId := id + 1);
      match EmptyFrom(t.slots, 0)
      case None => (t, None)
      case Some(i) =>
        if i < |t.slots|
        then (t.(pcbs := t.pcbs + [Pcb(id, Ready, 0, quantum, 0, 0)], slots := t.slots[i := Some(|t.pcbs|)],
          taskCount := t.taskCount + 1), Some(id))
        else (t, None)
  }

  function RemoveCurrent(s: Sched): Sched {
    if s.current == None || s.current.value >= |s.pcbs| then s.(current := None)
    else
      var t := s.(current := None);
      match SlotOfId(t, s.pcbs[s.current.value].id, 0)
      case None => t
      case Some(i) => if i < |t.slots| then t.(slots := t.slots[i := None], taskCount := t.taskCount - 1) else t
  }

  /** `set_task_ready`, `set_task_blocked` and `mark_task_as_zombie`. */
  function SetTaskState(s: Sched, id: nat, st: TaskState): Sched {
    match SlotOfId(s, id, 0)
    case None => s
    case Some(i) => if Occupied(s, i) then WithState(s, s.slots[i].value, st) else s
  }

  function SetCurrentState(s: Sched, st: TaskState): Sched {
    if s.current.Some? && s.current.value < |s.pcbs| then WithState(s, s.current.value, st) else s
  }

  /** `get_current_execution_time`. */
  function Now(s: Sched): nat {
    if s.current.Some? && s.current.value < |s.pcbs| then s.pcbs[s.current.value].executionTime else 0
  }

  /** `wake_up_tasks`, from slot `i` on. */
  function WakeFrom(s: Sched, i: nat): Sched
    decreases |s.slots| - i
  {
    if i >= |s.slots| then s
    else if Occupied(s, i) && Task(s, i).state == Sleeping && Task(s, i).wakeTime <= Now(s)
    then
      var t := WithState(s, s.slots[i].value, Ready);
      WakeFrom(t, i + 1)
    else WakeFrom(s, i + 1)
  }

  function SleepCurrent(s: Sched, duration: nat): (Sched, Outcome)
    requires |s.slots| > 0
  {
    if s.current == None || s.current.value >= |s.pcbs| then (s, NotCalled)
    else
      var h := s.current.value;
      var p := s.pcbs[h].(wakeTime := Now(s) + duration, state := Sleeping);
      Schedule(s.(pcbs := s.pcbs[h := p]))
  }

  function Tick(s: Sched): (Sched, Outcome)
    requires |s.slots| > 0
  {
    if s.current == None || s.current.value >= |s.pcbs| then Schedule(s)
    else
      var h := s.current.value;
      var p := s.pcbs[h].(tickCount := s.pcbs[h].tickCount + 1);
      if p.tickCount >= p.timeSlice then Schedule(s.(pcbs := s.pcbs[h := p.(tickCount := 0)]))
      else (s.(pcbs := s.pcbs[h := p]), NotCalled)
  }

  /** `cleanup_zombie_tasks`, from slot `i` on. */
  function CleanFrom(s: Sched, i: nat): Sched
    decreases |s.slots| - i
  {
    if i >= |s.slots| then s
    else if Occupied(s, i) && Task(s, i).state == Zombie
    then CleanFrom(s.(slots := s.slots[i := None], taskCount := s.taskCount - 1), i + 1)
    else CleanFrom(s, i + 1)
  }

  function Reset(s: Sched): Sched {
    s.(slots := seq(|s.slots|, _ => None), current := None, taskCount := 0, locked := false, nextId := 1)
  }

  /** The queue at boot. */
  function Boot(n: nat): Sched {
    Sched([], seq(n, _ => None), None, 0, false, 1)
  }
}
