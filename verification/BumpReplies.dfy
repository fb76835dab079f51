/** What the bump allocator of src/syscall/core.rs answers, request by request, over every interleaving. */
module BumpReplies {
  import opened Options
  import opened BumpAllocator
  import opened BumpRegions

  /** The regions that the answers grant, in order. */
  function Granted(replies: seq<Reply>): seq<Region> {
    if replies == [] then []
    else
      var last := replies[|replies| - 1];
      Granted(replies[..|replies| - 1]) + (if last.base.Some? then [Region(last.base.value, last.size)] else [])
  }

  lemma GrantedSnoc(replies: seq<Reply>, r: Reply)
    ensures Granted(replies + [r]) == Granted(replies) + (if r.base.Some? then [Region(r.base.value, r.size)] else [])
  {
    assert (replies + [r])[..|replies|] == replies;
  }

  /** A refused request did not fit between the value seen and the end. */
  ghost predicate Refused(b: Bounds, r: Reply) {
    r.base == None ==> b.start <= r.seen <= b.end && r.seen + r.size > b.end
  }

  /** What a thread in its critical section knows about the answers so far. */
  ghost predicate Told(b: Bounds, s: State, pc: Pc) {
    match pc
    case Unlock(size, seen, r) =>
      && Granted(s.replies) + (if r.Some? then [Region(r.value, size)] else []) == s.regions
      && Refused(b, Reply(size, seen, r))
    case Check(_, seen, _) => Granted(s.replies) == s.regions && b.start <= seen <= b.end
    case _ => Granted(s.replies) == s.regions
  }

  ghost predicate Answers(b: Bounds, s: State) {
    && (!s.locked ==> Granted(s.replies) == s.regions)
    && (forall t :: 0 <= t < |s.threads| && Critical(s.threads[t]) ==> Told(b, s, s.threads[t]))
    && (forall i :: 0 <= i < |s.replies| ==> Refused(b, s.replies[i]))
  }

  lemma StepTold(b: Bounds, s: State, t: nat, a: Action)
    requires Inv(b, s) && Answers(b, s) && t < |s.threads|
    ensures var u := Step(b, s, t, a);
      && |u.threads| == |s.threads|
      && (Critical(u.threads[t]) ==> Told(b, u, u.threads[t]))
      && (Critical(s.threads[t]) && !Critical(u.threads[t]) ==> Granted(u.replies) == u.regions)
      && (!Critical(s.threads[t]) ==> u.replies == s.replies && u.regions == s.regions)
      && (forall i :: 0 <= i < |u.replies| ==> Refused(b, u.replies[i]))
  {
    hide Mutex, Within, Tiled, WholePages, Granted;
    LockFree(s);
    assert Knows(b, s, s.threads[t]);
    if s.threads[t].Unlock? {
      var Unlock(size, seen, r) := s.threads[t];
      GrantedSnoc(s.replies, Reply(size, seen, r));
    }
  }

  lemma StepAnswers(b: Bounds, s: State, t: nat, a: Action)
    requires Inv(b, s) && Answers(b, s)
    ensures Answers(b, Step(b, s, t, a))
  {
    hide Within, Tiled, Knows, Told, Granted;
    if t < |s.threads| {
      StepTold(b, s, t, a);
      StepMutex(b, s, t, a);
      LockFree(s);
      var u := Step(b, s, t, a);
      hide Step;
      forall i | 0 <= i < |u.threads| && Critical(u.threads[i]) ensures Told(b, u, u.threads[i]) {
        if i != t {
          assert u.threads[i] == s.threads[i];
          SameTold(b, s, u, u.threads[i]);
        }
      }
    }
  }

  lemma SameTold(b: Bounds, s: State, u: State, pc: Pc)
    requires Told(b, s, pc) && u.replies == s.replies && u.regions == s.regions
    ensures Told(b, u, pc)
  {
  }

  lemma {:induction false} RunAnswered(b: Bounds, s: State, schedule: seq<(nat, Action)>)
    requires Inv(b, s) && Answers(b, s)
    ensures Answers(b, Run(b, s, schedule))
    decreases |schedule|
  {
    hide Inv, Answers, Step;
    if schedule != [] {
      var prefix, last := schedule[..|schedule| - 1], schedule[|schedule| - 1];
      RunAnswered(b, s, prefix);
      RunKeeps(b, s, prefix);
      StepAnswers(b, Run(b, s, prefix), last.0, last.1);
    }
  }

  /**
    Over every interleaving, the regions granted by the answers are, in order, exactly those handed out whenever the
    lock is free, and every refused request did not fit between the value it saw and the end.
   */
  lemma RunReplies(b: Bounds, n: nat, schedule: seq<(nat, Action)>)
    requires b.start <= b.end <= USIZE_MAX
    ensures var s := Run(b, Init(b, n), schedule);
      && (!s.locked ==> Granted(s.replies) == s.regions)
      && (forall i :: 0 <= i < |s.replies| && s.replies[i].base == None ==>
            b.start <= s.replies[i].seen <= b.end && s.replies[i].seen + s.replies[i].size > b.end)
  {
    hide Run, Mutex;
    InitInv(b, n);
    var s := Init(b, n);
    assert forall t :: 0 <= t < |s.threads| ==> !Critical(s.threads[t]);
    RunAnswered(b, s, schedule);
    var u := Run(b, s, schedule);
    forall i | 0 <= i < |u.replies| && u.replies[i].base == None
      ensures b.start <= u.replies[i].seen <= b.end && u.replies[i].seen + u.replies[i].size > b.end
    {
      assert Refused(b, u.replies[i]);
    }
  }

  /** The request a thread works on. */
  predicate Requests(pc: Pc, size: nat) {
    match pc
    case Idle => false
    case Store(_) => false
    case Spin(z) => z == size
    case Load(z) => z == size
    case Check(z, _, _) => z == size
    case Swap(z, _, _) => z == size
    case Unlock(z, _, _) => z == size
    case Retry(z, _) => z == size
  }

  /**
    In any state at all, an idle thread starts a request for `count` whole pages unless the count is zero or its bytes
    overflow; a failed swap and every other step keep to the request, until its answer is given.
   */
  lemma RequestKept(b: Bounds, s: State, t: nat, a: Action, size: nat)
    requires t < |s.threads|
    ensures var u := Step(b, s, t, a);
      && |u.threads| == |s.threads| && u.threads == s.threads[t := u.threads[t]]
      && (s.threads[t] == Idle && a.StartAllocate? ==>
            if a.count == 0 || a.count * 4096 > USIZE_MAX then u == s
            else Requests(u.threads[t], a.count * 4096) && u == s.(threads := u.threads))
      && (s.threads[t] == Idle && a.StartSet? ==>
            if b.start <= a.value <= b.end then u == s.(threads := s.threads[t := Store(a.value)]) else u == s)
      && (Requests(s.threads[t], size) ==>
            (Requests(u.threads[t], size) && u.replies == s.replies)
            || (u.threads[t] == Idle && |u.replies| == |s.replies| + 1 && u.replies[..|s.replies|] == s.replies
                && u.replies[|s.replies|].size == size))
  {
    assert s.threads == s.threads[t := s.threads[t]];
  }

  /** A request that does not fit is refused, and nothing but the answer changes. */
  lemma RefusedAlone(b: Bounds, s: State, t: nat, count: nat)
    requires t < |s.threads| && s.threads[t] == Idle && !s.locked && 0 < count && count * 4096 <= USIZE_MAX
    requires SaturatingAdd(s.current, count * 4096) > b.end
    ensures Run(b, s, AllocateSchedule(t, count)) ==
      s.(replies := s.replies + [Reply(count * 4096, s.current, None)])
  {
    hide Run;
    var z, l, go := count * 4096, s.(locked := true), (t, Go);
    var x1 := [(t, StartAllocate(count))];
    RunSnoc(b, s, [], (t, StartAllocate(count)));
    assert [] + x1 == x1;
    assert Run(b, s, x1) == Move(s, t, Spin(z));
    RunSnoc(b, s, x1, go);
    MoveTwice(l, t, Spin(z), Load(z));
    RunSnoc(b, s, x1 + [go], go);
    MoveTwice(l, t, Load(z), Check(z, s.current, s.sets));
    var x3 := x1 + [go] + [go];
    assert Run(b, s, x3) == Move(l, t, Check(z, s.current, s.sets));
    RunSnoc(b, s, x3, go);
    var done := Unlock(z, s.current, None);
    MoveTwice(l, t, Check(z, s.current, s.sets), done);
    RunSnoc(b, s, x3 + [go], go);
    var u := s.(replies := s.replies + [Reply(z, s.current, None)]);
    MoveTwice(u, t, done, Idle);
    assert Run(b, s, x3 + [go] + [go]) == u;
    RunSnoc(b, s, x3 + [go] + [go], go);
    assert x3 + [go] + [go] + [go] == AllocateSchedule(t, count);
  }
}
