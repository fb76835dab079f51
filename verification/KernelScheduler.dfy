/** The scheduler as an object: the run queue is an array updated in place, task blocks sit in a table. */
module KernelScheduler {
  import opened Options
  import opened RunQueue

  class Scheduler {
    const queue: array<Option<nat>>
    var pcbs: seq<Pcb>
    var current: Option<nat>
    var taskCount: int
    var locked: bool
    var nextId: nat

    ghost function View(): Sched
      reads this, queue
    {
      Sched(pcbs, queue[..], current, taskCount, locked, nextId)
    }

    ghost predicate Valid()
      reads this, queue
    {
      Shape(View())
    }

    constructor (maxTasks: nat)
      requires maxTasks > 0
      ensures Valid() && View() == Boot(maxTasks) && fresh(queue)
    {
      queue := new Option<nat>[maxTasks](_ => None);
      pcbs, current, taskCount, locked, nextId := [], None, 0, false, 1;
      new;
      assert queue[..] == seq(maxTasks, _ => None);
    }

    /** `find_next_task`. */
    method FindNextTask() returns (r: Option<nat>)
      requires Valid() && current.Some?
      ensures r == FindNext(View())
    {
      var n := queue.Length;
      var start := pcbs[current.value].id % n + 1;
      var i := 0;
      while i < n
        invariant 0 <= i <= n
        invariant FindNext(View()) == ProbeFrom(View(), start, i)
      {
        var idx := (start + i) % n;
        assert idx == Probe(n, start, i);
        if queue[idx].Some? && pcbs[queue[idx].value].state == Ready { return Some(idx); }
        i := i + 1;
      }
      r := None;
    }

    /** `schedule`; the context switch itself leaves the scheduler's state alone. */
    method ScheduleNext() returns (r: Outcome)
      requires Valid()
      modifies this
      ensures Valid() && (View(), r) == Schedule(old(View()))
    {
      hide FindNext;
      if locked { return LockedOut; }
      locked := true;
      if current == None { return Panicked; }
      var cur := current.value;
      if pcbs[cur].state == Running {
        pcbs := pcbs[cur := pcbs[cur].(state := Ready)];
      }
      ghost var demoted := View();
      FindIgnoresLock(demoted, Demote(old(View())));
      var next := FindNextTask();
      if next == None {
        locked := false;
        return Halted;
      }
      FindIsReady(demoted);
      var j := next.value;
      if pcbs[queue[j].value].id != pcbs[cur].id {
        pcbs := pcbs[queue[j].value := pcbs[queue[j].value].(state := Running)];
        current := queue[j];
        r := Switched(j);
      } else {
        r := Kept(j);
      }
      locked := false;
    }

    /** Fills the first empty slot with block `h`. */
    method FillSlot(h: nat) returns (slot: Option<nat>)
      requires h < |pcbs|
      modifies this`taskCount, queue
      ensures slot == EmptyFrom(old(queue[..]), 0)
      ensures match slot
        case None => queue[..] == old(queue[..]) && taskCount == old(taskCount)
        case Some(i) => i < queue.Length && queue[..] == old(queue[..])[i := Some(h)] && taskCount == old(taskCount) + 1
    {
      var i := 0;
      while i < queue.Length
        invariant 0 <= i <= queue.Length && queue[..] == old(queue[..]) && taskCount == old(taskCount)
        invariant EmptyFrom(old(queue[..]), 0) == EmptyFrom(old(queue[..]), i)
      {
        assert queue[i] == old(queue[..])[i];
        if queue[i] == None {
          queue[i] := Some(h);
          taskCount := taskCount + 1;
          return Some(i);
        }
        i := i + 1;
      }
      slot := None;
    }

    /** `add_task`. */
    method AddNewTask(p: Pcb)
      requires Valid()
      modifies this, queue
      ensures Valid() && View() == AddTask(old(View()), p)
    {
      var h := |pcbs|;
      pcbs := pcbs + [p];
      if taskCount >= queue.Length { return; }
      var slot := FillSlot(h);
    }

    /** `init_scheduler`. */
    method InitWith(p: Pcb)
      requires Valid()
      modifies this, queue
      ensures Valid() && View() == InitScheduler(old(View()), p)
    {
      var h := |pcbs|;
      pcbs := pcbs + [p.(state := Running)];
      current := Some(h);
      if taskCount >= queue.Length { return; }
      var slot := FillSlot(h);
    }

    /** `create_task`. */
    method CreateNewTask(quantum: nat) returns (r: Option<nat>)
      requires Valid()
      modifies this, queue
      ensures Valid() && (View(), r) == CreateTask(old(View()), quantum)
    {
      if taskCount >= queue.Length { return None; }
      var id := nextId;
      nextId := nextId + 1;
      var i := 0;
      while i < queue.Length
        invariant 0 <= i <= queue.Length && View() == old(View()).(nextId := id + 1)
        invariant EmptyFrom(old(queue[..]), 0) == EmptyFrom(old(queue[..]), i)
      {
        assert queue[i] == old(queue[..])[i];
        if queue[i] == None {
          queue[i] := Some(|pcbs|);
          pcbs := pcbs + [Pcb(id, Ready, 0, quantum, 0, 0)];
          taskCount := taskCount + 1;
          return Some(id);
        }
        i := i + 1;
      }
      r := None;
    }

    /** The search by id that the setters and `remove_current_task` share. */
    method FindSlot(id: nat) returns (slot: Option<nat>)
      requires Valid()
      ensures slot == SlotOfId(View(), id, 0)
      ensures slot.Some? ==> Occupied(View(), slot.value)
    {
      var i := 0;
      while i < queue.Length
        invariant 0 <= i <= queue.Length
        invariant SlotOfId(View(), id, 0) == SlotOfId(View(), id, i)
      {
        if queue[i].Some? && pcbs[queue[i].value].id == id { return Some(i); }
        i := i + 1;
      }
      slot := None;
    }

    /** `remove_current_task`. */
    method RemoveCurrentTask()
      requires Valid()
      modifies this, queue
      ensures Valid() && View() == RemoveCurrent(old(View()))
    {
      if current == None { return; }
      var id := pcbs[current.value].id;
      current := None;
      var slot := FindSlot(id);
      if slot.Some? {
        queue[slot.value] := None;
        taskCount := taskCount - 1;
      }
    }

    /** `set_task_ready`, `set_task_blocked`, `mark_task_as_zombie`. */
    method SetStateById(id: nat, st: TaskState)
      requires Valid()
      modifies this`pcbs
      ensures Valid() && View() == SetTaskState(old(View()), id, st)
    {
      var slot := FindSlot(id);
      if slot.Some? {
        var h := queue[slot.value].value;
        pcbs := pcbs[h := pcbs[h].(state := st)];
      }
    }

    /** `set_current_task_state`. */
    method SetStateOfCurrent(st: TaskState)
      requires Valid()
      modifies this`pcbs
      ensures Valid() && View() == SetCurrentState(old(View()), st)
    {
      if current.Some? {
        pcbs := pcbs[current.value := pcbs[current.value].(state := st)];
      }
    }

    /** `wake_up_tasks`: the clock is read again for every slot. */
    method WakeUpTasks()
      requires Valid()
      modifies this`pcbs
      ensures Valid() && View() == WakeFrom(old(View()), 0)
    {
      var i := 0;
      while i < queue.Length
        invariant 0 <= i <= queue.Length && Valid()
        invariant WakeFrom(old(View()), 0) == WakeFrom(View(), i)
      {
        if queue[i].Some? {
          var h := queue[i].value;
          var now := if current.Some? then pcbs[current.value].executionTime else 0;
          if pcbs[h].state == Sleeping && pcbs[h].wakeTime <= now {
            pcbs := pcbs[h := pcbs[h].(state := Ready)];
          }
        }
        i := i + 1;
      }
    }

    /** `cleanup_zombie_tasks`. */
    method CleanupZombieTasks()
      requires Valid()
      modifies this`taskCount, queue
      ensures Valid() && View() == CleanFrom(old(View()), 0)
    {
      var i := 0;
      while i < queue.Length
        invariant 0 <= i <= queue.Length && Valid()
        invariant CleanFrom(old(View()), 0) == CleanFrom(View(), i)
      {
        if queue[i].Some? && pcbs[queue[i].value].state == Zombie {
          ghost var before := queue[..];
          queue[i] := None;
          taskCount := taskCount - 1;
          assert queue[..] == before[i := None];
        }
        i := i + 1;
      }
    }

    /** `sleep_current_task`. */
    method SleepCurrentTask(duration: nat) returns (r: Outcome)
      requires Valid()
      modifies this
      ensures Valid() && (View(), r) == SleepCurrent(old(View()), duration)
    {
      hide Schedule;
      if current == None { return NotCalled; }
      var h := current.value;
      pcbs := pcbs[h := pcbs[h].(wakeTime := pcbs[h].executionTime + duration, state := Sleeping)];
      r := ScheduleNext();
    }

    /** `tick`. */
    method TimerTick() returns (r: Outcome)
      requires Valid()
      modifies this
      ensures Valid() && (View(), r) == Tick(old(View()))
    {
      hide Schedule;
      if current == None {
        r := ScheduleNext();
        return;
      }
      var h := current.value;
      ghost var before := pcbs;
      var p := pcbs[h].(tickCount := pcbs[h].tickCount + 1);
      pcbs := pcbs[h := p];
      if p.tickCount >= p.timeSlice {
        pcbs := pcbs[h := p.(tickCount := 0)];
        assert pcbs == before[h := p.(tickCount := 0)];
        r := ScheduleNext();
      } else {
        r := NotCalled;
      }
    }
  }

  lemma {:induction false} ProbeIgnoresLock(s: Sched, t: Sched, start: nat, i: nat)
    requires |s.slots| > 0 && t.slots == s.slots && t.pcbs == s.pcbs
    ensures ProbeFrom(s, start, i) == ProbeFrom(t, start, i)
    decreases |s.slots| - i
  {
    if i < |s.slots| {
      ProbeIgnoresLock(s, t, start, i + 1);
    }
  }

  lemma FindIgnoresLock(s: Sched, t: Sched)
    requires |s.slots| > 0 && t.slots == s.slots && t.pcbs == s.pcbs && t.current == s.current
    requires s.current.Some? && s.current.value < |s.pcbs|
    ensures FindNext(s) == FindNext(t)
  {
    ProbeIgnoresLock(s, t, s.pcbs[s.current.value].id % |s.slots| + 1, 0);
  }

  lemma {:induction false} ProbeIsReady(s: Sched, start: nat, i: nat)
    requires |s.slots| > 0
    ensures ProbeFrom(s, start, i).Some? ==> IsReady(s, ProbeFrom(s, start, i).value)
    decreases |s.slots| - i
  {
    if i < |s.slots| {
      ProbeIsReady(s, start, i + 1);
    }
  }

  lemma FindIsReady(s: Sched)
    requires |s.slots| > 0 && s.current.Some? && s.current.value < |s.pcbs|
    ensures FindNext(s).Some? ==> IsReady(s, FindNext(s).value)
  {
    ProbeIsReady(s, s.pcbs[s.current.value].id % |s.slots| + 1, 0);
  }
}
