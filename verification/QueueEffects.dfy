/** What each scheduler operation does to the lock, the current task and every block, in any state. */
module QueueEffects {
  import opened Options
  import opened RunQueue
  import opened QueueInvariant
  import opened Fairness

  /** Nothing but the lock, the current task and the contents of blocks may differ. */
  ghost predicate SameQueue(s: Sched, t: Sched) {
    t.slots == s.slots && t.taskCount == s.taskCount && t.nextId == s.nextId && |t.pcbs| == |s.pcbs|
  }

  /** The current task, if it runs, is put back among the ready ones. */
  predicate PutBack(s: Sched, h: nat) {
    s.current == Some(h) && h < |s.pcbs| && s.pcbs[h].state == Running
  }

  /** The task in slot `x` is one that `schedule` may choose. */
  predicate Eligible(s: Sched, x: nat) {
    Occupied(s, x) && (Task(s, x).state == Ready || PutBack(s, s.slots[x].value))
  }

  /** Slot `j` is the first with an eligible task, counting from the slot after the current id modulo the length. */
  ghost predicate FirstEligible(s: Sched, j: nat)
    requires Shape(s) && s.current.Some?
  {
    Eligible(s, j) && forall x: nat :: Eligible(s, x) ==> Pos(|s.slots|, Key(s), j) <= Pos(|s.slots|, Key(s), x)
  }

  lemma DemoteTasks(s: Sched)
    requires Shape(s) && s.current.Some?
    ensures var d := Demote(s);
      && Shape(d) && SameQueue(s, d) && d.current == s.current && d.locked == s.locked && Key(d) == Key(s)
      && (forall h: nat :: h < |s.pcbs| ==> d.pcbs[h] == if PutBack(s, h) then s.pcbs[h].(state := Ready)
        else s.pcbs[h])
      && (forall x: nat :: IsReady(d, x) <==> Eligible(s, x))
  {
    var d := Demote(s);
    forall x: nat ensures IsReady(d, x) <==> Eligible(s, x) {
      assert Occupied(d, x) <==> Occupied(s, x);
    }
  }

  /**
    `schedule` in any state: the lock is held afterwards exactly when it was held before or there is no current task;
    for each outcome, the new current task and the state of every block. The task chosen is the first eligible one, and
    the processor halts exactly when there is none.
   */
  lemma ScheduleEffect(s: Sched)
    requires Shape(s)
    ensures var (t, r) := Schedule(s);
      && SameQueue(s, t) && (t.locked <==> s.locked || s.current == None)
      && match r
         case NotCalled => false
         case LockedOut => s.locked && t == s
         case Panicked => !s.locked && s.current == None && t == s.(locked := true)
         case Halted =>
           && !s.locked && s.current.Some? && t.current == s.current && (forall x: nat :: !Eligible(s, x))
           && (forall h: nat :: h < |s.pcbs| ==>
                 t.pcbs[h] == if PutBack(s, h) then s.pcbs[h].(state := Ready) else s.pcbs[h])
         case Kept(j) =>
           && !s.locked && s.current.Some? && t.current == s.current
           && FirstEligible(s, j) && Task(s, j).id == CurrentId(s)
           && (forall h: nat :: h < |s.pcbs| ==>
                 t.pcbs[h] == if PutBack(s, h) then s.pcbs[h].(state := Ready) else s.pcbs[h])
         case Switched(j) =>
           && !s.locked && s.current.Some? && FirstEligible(s, j) && Task(s, j).id != CurrentId(s)
           && t.current == s.slots[j]
           && (forall h: nat :: h < |s.pcbs| ==>
                 t.pcbs[h] == if s.slots[j] == Some(h) then s.pcbs[h].(state := Running)
                              else if PutBack(s, h) then s.pcbs[h].(state := Ready) else s.pcbs[h])
  {
    if !s.locked && s.current.Some? {
      hide Demote, FindNext, PutBack, Eligible;
      DemoteTasks(s);
      FindNextIsFirst(Demote(s));
    }
  }

  /** A block but for its state. */
  predicate SameButState(p: Pcb, q: Pcb) {
    q == p.(state := q.state)
  }

  lemma ScheduleKeepsFields(s: Sched)
    requires Shape(s)
    ensures forall h: nat :: h < |s.pcbs| ==> h < |Schedule(s).0.pcbs| && SameButState(s.pcbs[h], Schedule(s).0.pcbs[h])
  {
    hide Schedule, FirstEligible, Eligible, PutBack;
    ScheduleEffect(s);
  }

  /**
    A timer tick in any state: a current task with ticks left in its slice gains one and nothing else changes;
    otherwise its slice starts again at zero and `schedule` is called. Without a current task `schedule` is called.
   */
  lemma TickEffect(s: Sched)
    requires Shape(s)
    ensures var (t, r) := Tick(s);
      && SameQueue(s, t) && (t.locked <==> s.locked || s.current == None)
      && (s.current == None ==> (t, r) == Schedule(s))
      && (s.current.Some? ==> var h := s.current.value;
            var spent := s.pcbs[h].tickCount + 1;
            if spent < s.pcbs[h].timeSlice
            then r == NotCalled && t == s.(pcbs := s.pcbs[h := s.pcbs[h].(tickCount := spent)])
            else
              && r != NotCalled && (t, r) == Schedule(s.(pcbs := s.pcbs[h := s.pcbs[h].(tickCount := 0)]))
              && t.pcbs[h].tickCount == 0
              && (forall k: nat :: k < |s.pcbs| && k != h ==> SameButState(s.pcbs[k], t.pcbs[k])))
  {
    hide Schedule;
    if s.current == None {
      ScheduleEffect(s);
    } else {
      var h := s.current.value;
      var u := s.(pcbs := s.pcbs[h := s.pcbs[h].(tickCount := 0)]);
      ScheduleEffect(u);
      ScheduleKeepsFields(u);
      SameTickBlock(s, h);
    }
  }

  lemma SameTickBlock(s: Sched, h: nat)
    requires h < |s.pcbs|
    ensures s.pcbs[h].(tickCount := s.pcbs[h].tickCount + 1).(tickCount := 0) == s.pcbs[h].(tickCount := 0)
  {
  }

  /**
    Sleeping in any state: the current task sleeps until the present plus the duration, whatever `schedule` then does;
    no other wake time changes, and without a current task nothing does.
   */
  lemma SleepEffect(s: Sched, duration: nat)
    requires Shape(s)
    ensures var (t, r) := SleepCurrent(s, duration);
      && SameQueue(s, t) && t.locked == s.locked
      && (s.current == None ==> t == s && r == NotCalled)
      && (s.current.Some? ==> var h := s.current.value;
            && r != NotCalled && r != Panicked
            && t.pcbs[h] == s.pcbs[h].(state := Sleeping, wakeTime := s.pcbs[h].executionTime + duration)
            && (forall k: nat :: k < |s.pcbs| && k != h ==>
                  && SameButState(s.pcbs[k], t.pcbs[k])
                  && t.pcbs[k].state == if r.Switched? && s.slots[r.slot] == Some(k) then Running else s.pcbs[k].state))
  {
    hide Schedule;
    if s.current.Some? {
      var h := s.current.value;
      var u := s.(pcbs := s.pcbs[h := s.pcbs[h].(wakeTime := Now(s) + duration, state := Sleeping)]);
      ScheduleEffect(u);
    }
  }

  /** The setter for the current task writes its state and nothing else. */
  lemma SetCurrentEffect(s: Sched, st: TaskState)
    requires Shape(s)
    ensures var t := SetCurrentState(s, st);
      && SameQueue(s, t) && t.current == s.current && t.locked == s.locked
      && (forall h: nat :: h < |s.pcbs| ==>
            t.pcbs[h] == if s.current == Some(h) then s.pcbs[h].(state := st) else s.pcbs[h])
  {
  }

  /** Slot `j` is the first whose task has the id. */
  ghost predicate FirstWithId(s: Sched, id: nat, j: nat) {
    Occupied(s, j) && Task(s, j).id == id && forall i: nat :: i < j && Occupied(s, i) ==> Task(s, i).id != id
  }

  lemma {:induction false} SlotOfIdIsFirst(s: Sched, id: nat, i: nat)
    ensures match SlotOfId(s, id, i)
      case None => forall k: nat :: i <= k && Occupied(s, k) ==> Task(s, k).id != id
      case Some(j) =>
        && i <= j && Occupied(s, j) && Task(s, j).id == id
        && (forall k: nat :: i <= k < j && Occupied(s, k) ==> Task(s, k).id != id)
    decreases |s.slots| - i
  {
    if i < |s.slots| && !(Occupied(s, i) && Task(s, i).id == id) {
      SlotOfIdIsFirst(s, id, i + 1);
    }
  }

  /** A setter by id writes the state of the task in the first slot with that id, and nothing else. */
  lemma SetTaskEffect(s: Sched, id: nat, st: TaskState)
    requires Shape(s)
    ensures var t := SetTaskState(s, id, st);
      && SameQueue(s, t) && t.current == s.current && t.locked == s.locked
      && ((forall j: nat :: !FirstWithId(s, id, j)) ==> t == s)
      && (forall j: nat, h: nat :: FirstWithId(s, id, j) && h < |s.pcbs| ==>
            t.pcbs[h] == if s.slots[j] == Some(h) then s.pcbs[h].(state := st) else s.pcbs[h])
  {
    SlotOfIdIsFirst(s, id, 0);
    match SlotOfId(s, id, 0)
    case None =>
    case Some(i) =>
      assert FirstWithId(s, id, i);
      forall j: nat | FirstWithId(s, id, j) ensures j == i {
      }
  }

  /** Block `h` is in a slot from `i` on. */
  ghost predicate QueuedFrom(s: Sched, i: nat, h: nat) {
    exists k: nat :: i <= k < |s.slots| && s.slots[k] == Some(h)
  }

  /** The execution time of the current task, or zero. */
  function Present(s: Sched): nat
    requires s.current.Some? ==> s.current.value < |s.pcbs|
  {
    if s.current.Some? then s.pcbs[s.current.value].executionTime else 0
  }

  /** Waking in any state makes the due sleepers of the queue ready, and changes nothing else. */
  lemma {:induction false} WakeEffect(s: Sched, i: nat)
    requires Shape(s)
    ensures var t := WakeFrom(s, i);
      && SameQueue(s, t) && t.current == s.current && t.locked == s.locked
      && (forall h: nat :: h < |s.pcbs| ==>
            t.pcbs[h] == if QueuedFrom(s, i, h) && s.pcbs[h].state == Sleeping && s.pcbs[h].wakeTime <= Present(s)
                         then s.pcbs[h].(state := Ready) else s.pcbs[h])
    decreases |s.slots| - i
  {
    hide QueuedFrom;
    if i < |s.slots| {
      QueuedStep(s, i);
      if Occupied(s, i) && Task(s, i).state == Sleeping && Task(s, i).wakeTime <= Now(s) {
        var u := WithState(s, s.slots[i].value, Ready);
        WakeEffect(u, i + 1);
        SameQueued(s, u, i + 1);
      } else {
        WakeEffect(s, i + 1);
      }
    } else {
      NoneQueued(s, i);
    }
  }

  lemma QueuedStep(s: Sched, i: nat)
    requires i < |s.slots|
    ensures forall h: nat :: QueuedFrom(s, i, h) <==> s.slots[i] == Some(h) || QueuedFrom(s, i + 1, h)
  {
  }

  lemma SameQueued(s: Sched, u: Sched, i: nat)
    requires u.slots == s.slots
    ensures forall h: nat :: QueuedFrom(u, i, h) <==> QueuedFrom(s, i, h)
  {
  }

  lemma NoneQueued(s: Sched, i: nat)
    requires i >= |s.slots|
    ensures forall h: nat :: !QueuedFrom(s, i, h)
  {
  }

  /** What becomes of the lock, the next id and, but for `schedule`, the current task and the blocks. */
  lemma StepFrame(s: Sched, op: Op)
    requires Shape(s)
    ensures var t := Step(s, op);
      && t.locked == (match op
                      case DoLock(on) => on
                      case DoReset => false
                      case DoSchedule => s.locked || s.current == None
                      case DoTick => s.locked || s.current == None
                      case _ => s.locked)
      && t.nextId == (match op
                      case DoReset => 1
                      case DoCreate(_) => if s.taskCount < |s.slots| then s.nextId + 1 else s.nextId
                      case _ => s.nextId)
      && (match op
          case DoInit(_) => t.current == Some(|s.pcbs|)
          case DoRemoveCurrent => t.current == None
          case DoReset => t.current == None
          case DoSchedule => true
          case DoTick => true
          case DoSleep(_) => true
          case _ => t.current == s.current)
      && (match op
          case DoInit(p) => t.pcbs == s.pcbs + [p.(state := Running)]
          case DoAdd(p) => t.pcbs == s.pcbs + [p]
          case DoCreate(q) => t.pcbs == s.pcbs || t.pcbs == s.pcbs + [Pcb(s.nextId, Ready, 0, q, 0, 0)]
          case DoRemoveCurrent => t.pcbs == s.pcbs
          case DoClean => t.pcbs == s.pcbs
          case DoLock(_) => t.pcbs == s.pcbs
          case DoReset => t.pcbs == s.pcbs && t.slots == Boot(|s.slots|).slots && t.taskCount == 0
          case _ => true)
  {
    hide Schedule, Tick, SleepCurrent, WakeFrom, CleanFrom, EmptyFrom, SlotOfId;
    match op
    case DoSchedule => ScheduleEffect(s);
    case DoTick => TickEffect(s);
    case DoSleep(duration) => SleepEffect(s, duration);
    case DoWake => WakeEffect(s, 0);
    case DoClean => CleanFrame(s, 0);
    case _ =>
  }

  lemma {:induction false} CleanFrame(s: Sched, i: nat)
    ensures var t := CleanFrom(s, i);
      t.locked == s.locked && t.nextId == s.nextId && t.current == s.current && t.pcbs == s.pcbs
    decreases |s.slots| - i
  {
    if i < |s.slots| {
      if Occupied(s, i) && Task(s, i).state == Zombie {
        CleanFrame(s.(slots := s.slots[i := None], taskCount := s.taskCount - 1), i + 1);
      } else {
        CleanFrame(s, i + 1);
      }
    }
  }

  /** After a reset the queue is the one at boot; only the old blocks are still there. */
  lemma ResetIsBoot(s: Sched)
    ensures Reset(s).(pcbs := []) == Boot(|s.slots|)
  {
  }
}
