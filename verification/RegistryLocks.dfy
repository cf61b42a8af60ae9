/** The name locks of the concurrent registry: none is orphaned, no set of callers waits for each other, and every
    reachable state can be run to rest without abandoning a call. */
module RegistryLocks {
  import opened Prelude
  import opened RecencyPages
  import opened RegistryConcurrency
  import P = PagedRegistry

  /** Every lock that is taken belongs to a call in flight that is past the taking of it. */
  ghost predicate LocksHeld(s: State) {
    forall n | n in s.locks :: Holds(s, s.locks[n], n)
  }

  predicate Holds(s: State, t: TaskId, n: Name) {
    t in s.tasks && HoldsLock(s.tasks[t]) && s.tasks[t].name == n
  }

  /** The shapes of a critical section, as far as locks go. */
  lemma StepShape(s: State, t: TaskId, ok: bool, l: Limits)
    requires t in s.tasks
    ensures var pc, s' := s.tasks[t], TaskStep(s, t, ok, l);
            if t !in s'.tasks then s'.tasks == s.tasks - {t} && s'.locks == Leave(s, t).locks
            else if pc.AwaitLock? && pc.name !in s.locks then
              s'.tasks == s.tasks[t := Recheck(pc.name)] && s'.locks == s.locks[pc.name := t]
            else s'.tasks == s.tasks[t := s'.tasks[t]] && s'.locks == s.locks && s'.tasks[t].name == pc.name
                 && (HoldsLock(s'.tasks[t]) <==> HoldsLock(pc))
  {
    assert s.tasks[t := s.tasks[t]] == s.tasks;
  }

  lemma LeaveHeld(s: State, t: TaskId, s': State)
    requires LocksHeld(s) && s'.tasks == s.tasks - {t} && s'.locks == Leave(s, t).locks
    ensures LocksHeld(s')
  {
    forall n | n in s'.locks ensures Holds(s', s'.locks[n], n) {
      assert Holds(s, s.locks[n], n);
    }
  }

  lemma GotoHeld(s: State, t: TaskId, pc: Pc, s': State)
    requires LocksHeld(s) && s'.tasks == s.tasks[t := pc] && s'.locks == s.locks
    requires t in s.tasks && HoldsLock(s.tasks[t]) ==> HoldsLock(pc) && pc.name == s.tasks[t].name
    ensures LocksHeld(s')
  {
    forall n | n in s'.locks ensures Holds(s', s'.locks[n], n) {
      assert Holds(s, s.locks[n], n);
    }
  }

  lemma TakeHeld(s: State, t: TaskId, n: Name, s': State)
    requires LocksHeld(s) && t in s.tasks && !HoldsLock(s.tasks[t])
    requires s'.tasks == s.tasks[t := Recheck(n)] && s'.locks == s.locks[n := t]
    ensures LocksHeld(s')
  {
    forall m | m in s'.locks ensures Holds(s', s'.locks[m], m) {
      assert m != n ==> Holds(s, s.locks[m], m);
    }
  }

  lemma TaskStepHeld(s: State, t: TaskId, ok: bool, l: Limits)
    requires LocksHeld(s) && t in s.tasks
    ensures LocksHeld(TaskStep(s, t, ok, l))
  {
    var s' := TaskStep(s, t, ok, l);
    StepShape(s, t, ok, l);
    if t !in s'.tasks {
      LeaveHeld(s, t, s');
    } else if s.tasks[t].AwaitLock? && s.tasks[t].name !in s.locks {
      TakeHeld(s, t, s.tasks[t].name, s');
    } else {
      GotoHeld(s, t, s'.tasks[t], s');
    }
  }

  /** In every run, abandoned calls included, no lock is left behind. */
  lemma {:induction false} LocksAlwaysHeld(run: seq<Action>, l: Limits, slots: nat)
    ensures LocksHeld(After(run, l, slots))
  {
    if run != [] {
      var s, a := After(run[..|run| - 1], l, slots), run[|run| - 1];
      LocksAlwaysHeld(run[..|run| - 1], l, slots);
      if Enabled(s, a, slots) {
        match a
        case Arrive(t, n) => GotoHeld(s, t, Fast(n), Goto(s, t, Fast(n)));
        case Advance(t, ok) => TaskStepHeld(s, t, ok, l);
        case Drop(t) => LeaveHeld(s, t, Leave(s, t));
      }
    }
  }

  predicate Blocked(s: State, pc: Pc) {
    pc.AwaitLock? && pc.name in s.locks
  }

  // ---- A call needs finitely many critical sections of its own ----

  function Stage(pc: Pc): nat {
    match pc
    case Fast(_) => 4
    case AwaitLock(_) => 3
    case Recheck(_) => 2
    case Insert(_, _) => 0
    case _ => 1
  }

  function TierSize(s: State, tier: P.Tier): nat {
    |InTier(s.runtimes, tier)|
  }

  /** The turns of the demotion loop still ahead; a victim that is no longer hot costs one more. */
  function Turns(s: State, pc: Pc): nat {
    TierSize(s, P.Hot) + if (pc.HotFetch? || pc.HotDemote?) && !IsHot(s, pc.victim) then 1 else 0
  }

  /** The sections of this turn still ahead, with the trimming loop in it. */
  function Sections(s: State, pc: Pc): nat {
    match pc
    case HotScan(_, _) => 2
    case HotFetch(_, _, _) => 1
    case WarmScan(_, _) => 2 * TierSize(s, P.Warm) + 3
    case WarmDrop(_, _, v) =>
      2 * TierSize(s, P.Warm) + if v in s.runtimes && s.runtimes[v] == P.Warm then 2 else 4
    case _ => 0
  }

  /** The measure of a task went down. */
  predicate Nearer(s: State, pc: Pc, s': State, pc': Pc) {
    || Stage(pc') < Stage(pc)
    || (Stage(pc') == Stage(pc) && Turns(s', pc') < Turns(s, pc))
    || (Stage(pc') == Stage(pc) && Turns(s', pc') == Turns(s, pc) && Sections(s', pc') < Sections(s, pc))
  }

  lemma DemoteNearer(s: State, t: TaskId, ok: bool, l: Limits)
    requires t in s.tasks && s.tasks[t].HotDemote?
    ensures var s' := TaskStep(s, t, ok, l); Nearer(s, s.tasks[t], s', s'.tasks[t])
  {
    var v, s' := s.tasks[t].victim, TaskStep(s, t, ok, l);
    assert InTier(s'.runtimes, P.Hot) == InTier(s.runtimes, P.Hot) - {v};
  }

  lemma DropNearer(s: State, t: TaskId, ok: bool, l: Limits)
    requires t in s.tasks && s.tasks[t].WarmDrop?
    ensures var s' := TaskStep(s, t, ok, l); Nearer(s, s.tasks[t], s', s'.tasks[t])
  {
    var v, s' := s.tasks[t].victim, TaskStep(s, t, ok, l);
    assert InTier(s'.runtimes, P.Hot) == InTier(s.runtimes, P.Hot) - {v};
    assert InTier(s'.runtimes, P.Warm) == InTier(s.runtimes, P.Warm) - {v};
    if !IsHot(s, v) {
      assert v !in InTier(s.runtimes, P.Hot);
      assert v in InTier(s.runtimes, P.Warm) <==> v in s.runtimes && s.runtimes[v] == P.Warm;
    }
  }

  /** In any state, a critical section ends its call or brings it nearer, unless it waits for a lock. */
  lemma SectionIsProgress(s: State, t: TaskId, ok: bool, l: Limits)
    requires t in s.tasks && !Blocked(s, s.tasks[t])
    ensures var s' := TaskStep(s, t, ok, l); t in s'.tasks ==> Nearer(s, s.tasks[t], s', s'.tasks[t])
  {
    if s.tasks[t].HotDemote? {
      DemoteNearer(s, t, ok, l);
    } else if s.tasks[t].WarmDrop? {
      DropNearer(s, t, ok, l);
    }
  }

  // ---- No deadlock ----

  /** Whatever callers wait, another one can go on: whenever calls are in flight, one of them is not blocked,
      and a blocked one waits for a call in flight that is not. */
  lemma SomeoneCanGoOn(run: seq<Action>, l: Limits, slots: nat)
    requires After(run, l, slots).tasks != map[]
    ensures var s := After(run, l, slots);
            && (exists t :: t in s.tasks && !Blocked(s, s.tasks[t]))
            && (forall t | t in s.tasks && Blocked(s, s.tasks[t]) ::
                  Holds(s, s.locks[s.tasks[t].name], s.tasks[t].name) && s.locks[s.tasks[t].name] != t)
  {
    var s := After(run, l, slots);
    LocksAlwaysHeld(run, l, slots);
    var t :| t in s.tasks;
    if Blocked(s, s.tasks[t]) {
      assert Holds(s, s.locks[s.tasks[t].name], s.tasks[t].name);
      assert !Blocked(s, s.tasks[s.locks[s.tasks[t].name]]);
    }
  }

  /** `run'` goes on from `run` with nothing but critical sections of the calls in flight. */
  ghost predicate GoesOn(run: seq<Action>, run': seq<Action>) {
    IsPrefix(run, run') && forall i | |run| <= i < |run'| :: run'[i].Advance?
  }

  /** Task `t` need not wait for any other. */
  predicate Free(s: State, t: TaskId) {
    t in s.tasks && (HoldsLock(s.tasks[t]) || s.locks == map[])
  }

  lemma StaysFree(s: State, t: TaskId, l: Limits)
    requires Free(s, t)
    ensures var s' := TaskStep(s, t, true, l);
            && s'.tasks - {t} == s.tasks - {t}
            && (t in s'.tasks ==> Free(s', t))
  {
    StepShape(s, t, true, l);
  }

  lemma OneSection(run: seq<Action>, t: TaskId, l: Limits, slots: nat)
    requires t in After(run, l, slots).tasks
    ensures After(run + [Advance(t, true)], l, slots) == TaskStep(After(run, l, slots), t, true, l)
    ensures GoesOn(run, run + [Advance(t, true)])
  {
    InitAndLast(run, Advance(t, true));
  }

  lemma GoesOnAndOn(run: seq<Action>, run': seq<Action>, run'': seq<Action>)
    requires GoesOn(run, run') && GoesOn(run', run'')
    ensures GoesOn(run, run'')
  {
    assert forall i | |run'| <= i < |run''| :: run''[i].Advance?;
    forall i | |run| <= i < |run''| ensures run''[i].Advance? {
      assert i < |run'| ==> run''[i] == run'[i];
    }
    assert run''[..|run'|][..|run|] == run''[..|run|];
  }

  lemma WithoutTwice(tasks: map<TaskId, Pc>, t: TaskId)
    requires t !in tasks
    ensures tasks - {t} == tasks
  {
  }

  /** Left to itself, such a task returns. */
  lemma {:induction false} Returns(run: seq<Action>, s: State, t: TaskId, l: Limits, slots: nat)
    returns (run': seq<Action>)
    requires s == After(run, l, slots) && Free(s, t)
    ensures GoesOn(run, run') && After(run', l, slots).tasks == s.tasks - {t}
    decreases Stage(s.tasks[t]), Turns(s, s.tasks[t]), Sections(s, s.tasks[t])
  {
    run' := run + [Advance(t, true)];
    var s' := TaskStep(s, t, true, l);
    OneSection(run, t, l, slots);
    StaysFree(s, t, l);
    SectionIsProgress(s, t, true, l);
    if t in s'.tasks {
      var rest := Returns(run', s', t, l, slots);
      GoesOnAndOn(run, run', rest);
      run' := rest;
    } else {
      WithoutTwice(s'.tasks, t);
    }
  }

  /** Some task need not wait for any other. */
  lemma SomeoneFree(s: State) returns (t: TaskId)
    requires LocksHeld(s) && s.tasks != map[]
    ensures Free(s, t)
  {
    if s.locks == map[] {
      t :| t in s.tasks;
    } else {
      var n :| n in s.locks;
      t := s.locks[n];
      assert Holds(s, t, n);
    }
  }

  /** From every reachable state all calls in flight can return, with no call abandoned and none arriving, and
      then no lock is taken. */
  lemma {:induction false} AllCanReturn(run: seq<Action>, l: Limits, slots: nat) returns (run': seq<Action>)
    ensures GoesOn(run, run') && After(run', l, slots).tasks == map[] && After(run', l, slots).locks == map[]
    decreases |After(run, l, slots).tasks|
  {
    var s := After(run, l, slots);
    LocksAlwaysHeld(run, l, slots);
    if s.tasks == map[] {
      run' := run;
      NoLocksAtRest(s);
    } else {
      var t := SomeoneFree(s);
      run' := Returns(run, s, t, l, slots);
      assert (s.tasks - {t}).Keys == s.tasks.Keys - {t};
      var rest := AllCanReturn(run', l, slots);
      GoesOnAndOn(run, run', rest);
      run' := rest;
    }
  }

  lemma NoLocksAtRest(s: State)
    requires LocksHeld(s) && s.tasks == map[]
    ensures s.locks == map[]
  {
    assert forall n | n in s.locks :: Holds(s, s.locks[n], n);
    assert s.locks.Keys == {};
  }
}
