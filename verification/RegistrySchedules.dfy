/** Particular interleavings of the concurrent registry, among them runs that attain the bound on the hot tier. */
module RegistrySchedules {
  import opened Prelude
  import opened RecencyPages
  import opened PagedRegistry
  import opened RegistryConcurrency

  ghost predicate Reachable(s: State, l: Limits, slots: nat) {
    exists run :: After(run, l, slots) == s
  }

  /** One more action. */
  lemma Then(s: State, a: Action, l: Limits, slots: nat)
    requires Reachable(s, l, slots)
    ensures Reachable(Step(s, a, l, slots), l, slots)
  {
    var run :| After(run, l, slots) == s;
    assert (run + [a])[..|run + [a]| - 1] == run;
    assert After(run + [a], l, slots) == Step(s, a, l, slots);
  }

  lemma LockSteps(s: State, t: TaskId, n: Name, l: Limits, slots: nat)
    requires t !in s.tasks && |s.tasks| < slots && !IsHot(s, n) && n !in s.locks
    ensures Step(s, Arrive(t, n), l, slots) == Goto(s, t, Fast(n))
    ensures Step(Goto(s, t, Fast(n)), Advance(t, true), l, slots) == Goto(s, t, AwaitLock(n))
    ensures Step(Goto(s, t, AwaitLock(n)), Advance(t, true), l, slots)
         == Goto(s.(locks := s.locks[n := t]), t, Recheck(n))
  {
    assert s.tasks[t := Fast(n)][t := AwaitLock(n)] == s.tasks[t := AwaitLock(n)];
    assert s.tasks[t := AwaitLock(n)][t := Recheck(n)] == s.tasks[t := Recheck(n)];
  }

  /** A call for a name that is neither hot nor locked takes the name lock. */
  lemma TakeLock(s: State, t: TaskId, n: Name, l: Limits, slots: nat)
    requires Reachable(s, l, slots) && t !in s.tasks && |s.tasks| < slots && !IsHot(s, n) && n !in s.locks
    ensures Reachable(Goto(s.(locks := s.locks[n := t]), t, Recheck(n)), l, slots)
  {
    LockSteps(s, t, n, l, slots);
    Then(s, Arrive(t, n), l, slots);
    Then(Goto(s, t, Fast(n)), Advance(t, true), l, slots);
    Then(Goto(s, t, AwaitLock(n)), Advance(t, true), l, slots);
  }

  function Passed(s: State, t: TaskId, n: Name): State {
    Goto(s.(locks := s.locks[n := t]), t, Insert(n, true))
  }

  lemma VictimIsHot(s: State, n: Name)
    ensures Oldest(s.lru, s.runtimes, Hot, Some(n)) != None ==> |InTier(s.runtimes, Hot)| > 0
  {
    var victim := Oldest(s.lru, s.runtimes, Hot, Some(n));
    if victim.Some? {
      assert victim.value in InTier(s.runtimes, Hot);
    }
  }

  /** `s` here already has the lock of `n` taken. */
  lemma PassSteps(s: State, t: TaskId, n: Name, l: Limits, slots: nat)
    requires n !in s.runtimes && |InTier(s.runtimes, Hot)| < HotCapacity(l.hotLimit)
    ensures Step(Goto(s, t, Recheck(n)), Advance(t, true), l, slots) == Goto(s, t, HotScan(n, true))
    ensures Step(Goto(s, t, HotScan(n, true)), Advance(t, true), l, slots) == Goto(s, t, Insert(n, true))
  {
    VictimIsHot(s, n);
    assert s.tasks[t := Recheck(n)][t := HotScan(n, true)] == s.tasks[t := HotScan(n, true)];
    assert s.tasks[t := HotScan(n, true)][t := Insert(n, true)] == s.tasks[t := Insert(n, true)];
  }

  /** A cold task gets past the eviction check while a hot slot is free. */
  lemma PassCheck(s: State, t: TaskId, n: Name, l: Limits, slots: nat)
    requires Reachable(s, l, slots) && t !in s.tasks && |s.tasks| < slots
    requires n !in s.runtimes && n !in s.locks && |InTier(s.runtimes, Hot)| < HotCapacity(l.hotLimit)
    ensures Reachable(Passed(s, t, n), l, slots)
  {
    TakeLock(s, t, n, l, slots);
    var locked := s.(locks := s.locks[n := t]);
    PassSteps(locked, t, n, l, slots);
    Then(Goto(locked, t, Recheck(n)), Advance(t, true), l, slots);
    Then(Goto(locked, t, HotScan(n, true)), Advance(t, true), l, slots);
  }

  /** Templates 0 to `i - 1` are hot, and tasks `i` to `j - 1`, each asking for the template of the same
      number, are past the check. */
  ghost predicate Crowd(s: State, i: nat, j: nat) {
    && |InTier(s.runtimes, Hot)| == i
    && (forall n | n in s.runtimes :: n < i)
    && (forall n | n in s.locks :: n < j)
    && |s.tasks| == j - i
    && (forall t | i <= t < j :: t in s.tasks)
    && (forall t | t in s.tasks :: i <= t < j && s.tasks[t].Insert? && s.tasks[t].name == t)
  }

  lemma LeaveEnterSizes(s: State, i: nat)
    requires i in s.tasks && i !in s.runtimes
    ensures |InTier(Leave(Enter(s, i), i).runtimes, Hot)| == |InTier(s.runtimes, Hot)| + 1
    ensures |Leave(Enter(s, i), i).tasks| == |s.tasks| - 1
  {
    assert InTier(s.runtimes[i := Hot], Hot) == InTier(s.runtimes, Hot) + {i};
    assert (s.tasks - {i}).Keys == s.tasks.Keys - {i};
  }

  /** A waiting task enters its template, without another look at the count. */
  lemma CrowdEnters(s: State, i: nat, j: nat)
    requires i < j && Crowd(s, i, j)
    ensures Crowd(Leave(Enter(s, i), i), i + 1, j)
  {
    LeaveEnterSizes(s, i);
    var s' := Leave(Enter(s, i), i);
    forall t | t in s'.tasks ensures t in s.tasks && t != i && s'.tasks[t] == s.tasks[t] {
    }
    forall n | n in s'.locks ensures n in s.locks {
    }
  }

  lemma CrowdGrows(s: State, i: nat, j: nat)
    requires Crowd(s, i, j)
    ensures Crowd(Passed(s, j, j), i, j + 1)
  {
    var s' := Passed(s, j, j);
    PassedTasks(s, j);
    forall t | i <= t < j + 1 ensures t in s'.tasks {
      assert t < j ==> t in s.tasks;
    }
  }

  lemma PassedTasks(s: State, j: nat)
    requires j !in s.tasks
    ensures var s' := Passed(s, j, j);
            && |s'.tasks| == |s.tasks| + 1 && j in s'.tasks && s'.tasks[j] == Insert(j, true)
            && (forall t | t in s'.tasks && t != j :: t in s.tasks && s'.tasks[t] == s.tasks[t])
            && (forall t | t in s.tasks :: t in s'.tasks)
            && (forall n | n in s'.locks :: n in s.locks || n == j)
  {
    assert Passed(s, j, j).tasks.Keys == s.tasks.Keys + {j};
  }

  /** From `i` hot templates, below the limit, to `k` tasks past the check. */
  lemma {:induction false} CrowdForms(s: State, i: nat, k: nat, l: Limits, slots: nat) returns (s': State)
    requires i < HotCapacity(l.hotLimit) && k <= slots && Crowd(s, i, i) && Reachable(s, l, slots)
    ensures Crowd(s', i, i + k) && Reachable(s', l, slots)
  {
    s' := s;
    if k > 0 {
      s' := CrowdForms(s, i, k - 1, l, slots);
      var j := i + k - 1;
      PassCheck(s', j, j, l, slots);
      CrowdGrows(s', i, j);
      s' := Passed(s', j, j);
    }
  }

  lemma {:induction false} CrowdAllEnter(s: State, i: nat, j: nat, l: Limits, slots: nat) returns (s': State)
    requires i <= j && Crowd(s, i, j) && Reachable(s, l, slots)
    ensures Crowd(s', j, j) && Reachable(s', l, slots)
    decreases j - i
  {
    s' := s;
    if i < j {
      CrowdEnters(s, i, j);
      s' := Leave(Enter(s, i), i);
      assert s' == Step(s, Advance(i, true), l, slots);
      Then(s, Advance(i, true), l, slots);
      s' := CrowdAllEnter(s', i + 1, j, l, slots);
    }
  }

  /** Serving `m` templates one after the other. */
  lemma {:induction false} Serve(m: nat, l: Limits, slots: nat) returns (s: State)
    requires m <= HotCapacity(l.hotLimit) && 1 <= slots
    ensures Crowd(s, m, m) && Reachable(s, l, slots)
  {
    if m == 0 {
      s := IDLE;
      assert After([], l, slots) == IDLE;
      assert InTier(IDLE.runtimes, Hot) == {};
    } else {
      s := Serve(m - 1, l, slots);
      s := CrowdForms(s, m - 1, 1, l, slots);
      s := CrowdAllEnter(s, m - 1, m, l, slots);
    }
  }

  /** The bound is attained for every limit and every number of slots: all callers pass the check while one
      hot slot is free, and then all of them enter. */
  lemma HotBoundAttained(l: Limits, slots: nat)
    requires 1 <= slots
    ensures exists run :: |InTier(After(run, l, slots).runtimes, Hot)| == HotCapacity(l.hotLimit) - 1 + slots
  {
    var base := HotCapacity(l.hotLimit) - 1;
    var s := Serve(base, l, slots);
    s := CrowdForms(s, base, slots, l, slots);
    s := CrowdAllEnter(s, base, base + slots, l, slots);
    var run :| After(run, l, slots) == s;
  }

  /** A cold task that found no free hot slot, about to demote `v`. */
  function Met(s: State, t: TaskId, n: Name, v: Name): State {
    Goto(s.(locks := s.locks[n := t]), t, HotDemote(n, true, v))
  }

  lemma MeetSteps(s: State, t: TaskId, n: Name, v: Name, l: Limits, slots: nat)
    requires n !in s.runtimes && |InTier(s.runtimes, Hot)| >= l.hotLimit
    requires Oldest(s.lru, s.runtimes, Hot, Some(n)) == Some(v)
    ensures Step(Goto(s, t, Recheck(n)), Advance(t, true), l, slots) == Goto(s, t, HotScan(n, true))
    ensures Step(Goto(s, t, HotScan(n, true)), Advance(t, true), l, slots) == Goto(s, t, HotFetch(n, true, v))
    ensures Step(Goto(s, t, HotFetch(n, true, v)), Advance(t, true), l, slots) == Goto(s, t, HotDemote(n, true, v))
  {
    assert s.tasks[t := Recheck(n)][t := HotScan(n, true)] == s.tasks[t := HotScan(n, true)];
    assert s.tasks[t := HotScan(n, true)][t := HotFetch(n, true, v)] == s.tasks[t := HotFetch(n, true, v)];
    assert s.tasks[t := HotFetch(n, true, v)][t := HotDemote(n, true, v)] == s.tasks[t := HotDemote(n, true, v)];
  }

  /** A call for a name that is neither resident nor locked, while the hot tier is full, goes as far as its victim. */
  lemma MeetVictim(s: State, t: TaskId, n: Name, v: Name, l: Limits, slots: nat)
    requires Reachable(s, l, slots) && t !in s.tasks && |s.tasks| < slots && n !in s.runtimes && n !in s.locks
    requires |InTier(s.runtimes, Hot)| >= l.hotLimit && Oldest(s.lru, s.runtimes, Hot, Some(n)) == Some(v)
    ensures Reachable(Met(s, t, n, v), l, slots)
  {
    TakeLock(s, t, n, l, slots);
    var locked := s.(locks := s.locks[n := t]);
    MeetSteps(locked, t, n, v, l, slots);
    Then(Goto(locked, t, Recheck(n)), Advance(t, true), l, slots);
    Then(Goto(locked, t, HotScan(n, true)), Advance(t, true), l, slots);
    Then(Goto(locked, t, HotFetch(n, true, v)), Advance(t, true), l, slots);
  }
}
