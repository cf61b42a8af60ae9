/** When the map and the LRU deque of the registry can part: with two calls in flight, under all limits. */
module RegistryParting {
  import opened Prelude
  import opened RecencyPages
  import opened RegistryConcurrency
  import opened RegistrySchedules
  import opened RegistrySerial
  import opened RegistryLocks
  import P = PagedRegistry

  predicate OwnsLock(s: State, t: TaskId) {
    exists n :: n in s.locks && s.locks[n] == t
  }

  /** Names 0 to `m - 1` have been served once each, in this order; `q` is what is left of them. */
  ghost predicate Rolled(s: State, q: Pages, m: nat) {
    && Shows(s, q)
    && (forall n | n in s.lru :: n < m)
    && (m > 0 ==> s.lru != [] && s.lru[0] == 0)
  }

  lemma NewName(s: State, q: Pages, m: nat, n: Name)
    requires Rolled(s, q, m) && m <= n
    ensures n !in s.runtimes && n !in q.warm && n !in q.hot
  {
    Residents(s, q, n);
  }

  lemma LeaveFrees(s: State, t: TaskId, n: Name)
    requires t !in s.tasks && n !in s.locks && !OwnsLock(s, t)
    ensures Leave(Enter(Passed(s, t, n), n), t) == Enter(s, n)
  {
    var tasks, locks := s.tasks[t := Insert(n, true)], s.locks[n := t];
    assert tasks - {t} == s.tasks;
    assert (map m | m in locks && locks[m] != t :: locks[m]) == s.locks;
  }

  /** A task past the check enters its template and returns. */
  lemma PassedEnters(s: State, t: TaskId, n: Name, l: Limits, slots: nat)
    requires Reachable(Passed(s, t, n), l, slots) && t !in s.tasks && n !in s.locks && !OwnsLock(s, t)
    ensures Reachable(Enter(s, n), l, slots)
  {
    LeaveFrees(s, t, n);
    Then(Passed(s, t, n), Advance(t, true), l, slots);
  }

  lemma EnterRolled(s: State, q: Pages, m: nat)
    requires Rolled(s, q, m)
    ensures Rolled(Enter(s, m), Pages(q.warm, q.hot + [m], q.dead), m + 1)
  {
    var r := Pages(q.warm, q.hot + [m], q.dead);
    NewName(s, q, m, m);
    MoveToBackParts(q.warm, q.hot, m);
    assert q.warm + q.hot + [m] == r.warm + r.hot;
    EnterShown(s, q, m, 0, r);
    SameShown(Leave(Enter(s, m), 0), Enter(s, m), r);
    OldFront(s.lru, m);
  }

  lemma OldFront(lru: seq<Name>, m: nat)
    requires forall n | n in lru :: n < m
    requires m > 0 ==> lru != [] && lru[0] == 0
    ensures var lru' := Without(lru, m) + [m]; lru'[0] == 0 && forall n | n in lru' :: n < m + 1
  {
    if lru != [] {
      assert lru[0] in lru;
    }
  }

  /** Serving the next name while a hot slot is free. */
  lemma ServeNext(s: State, q: Pages, m: nat, t: TaskId, l: Limits, slots: nat)
    requires Reachable(s, l, slots) && Rolled(s, q, m) && |q.hot| < HotCapacity(l.hotLimit)
    requires t !in s.tasks && |s.tasks| < slots && m !in s.locks && !OwnsLock(s, t)
    ensures Reachable(Enter(s, m), l, slots) && Rolled(Enter(s, m), Pages(q.warm, q.hot + [m], q.dead), m + 1)
  {
    NewName(s, q, m, m);
    TierSizes(s, q);
    PassCheck(s, t, m, l, slots);
    PassedEnters(s, t, m, l, slots);
    EnterRolled(s, q, m);
  }

  /** Names 0 to `m - 1`, one after the other, as many as fit. */
  lemma {:induction false} Fill(m: nat, l: Limits, slots: nat) returns (s: State, q: Pages)
    requires m <= HotCapacity(l.hotLimit) && 1 <= slots
    ensures Reachable(s, l, slots) && Rolled(s, q, m) && |q.hot| == m && q.warm == []
    ensures s.tasks == map[] && s.locks == map[]
  {
    if m == 0 {
      s, q := IDLE, Pages([], [], {});
      assert After([], l, slots) == IDLE;
    } else {
      s, q := Fill(m - 1, l, slots);
      ServeNext(s, q, m - 1, 2, l, slots);
      s, q := Enter(s, m - 1), Pages(q.warm, q.hot + [m - 1], q.dead);
    }
  }

  function Demoted(s: State, v: Name): State {
    s.(runtimes := s.runtimes[v := P.Warm])
  }

  /** Task `t` holds the lock of `n` and stands at `pc`. */
  function Locked(s: State, t: TaskId, n: Name, pc: Pc): State {
    Goto(s.(locks := s.locks[n := t]), t, pc)
  }

  lemma MetDemotes(s: State, t: TaskId, n: Name, v: Name, l: Limits)
    ensures TaskStep(Met(s, t, n, v), t, true, l) == Locked(Demoted(s, v), t, n, WarmScan(n, true))
  {
    assert s.tasks[t := HotDemote(n, true, v)][t := WarmScan(n, true)] == s.tasks[t := WarmScan(n, true)];
  }

  /** A call for the next name finds the hot tier full and gets as far as demoting the oldest hot template. */
  lemma MeetNext(s: State, q: Pages, m: nat, n: Name, t: TaskId, l: Limits, slots: nat)
    requires Reachable(s, l, slots) && Rolled(s, q, m) && |q.hot| == HotCapacity(l.hotLimit)
    requires t !in s.tasks && |s.tasks| < slots && m <= n && n !in s.locks
    ensures Reachable(Met(s, t, n, q.hot[0]), l, slots)
  {
    NewName(s, q, m, n);
    TierSizes(s, q);
    HotVictim(s, q, n);
    MeetVictim(s, t, n, q.hot[0], l, slots);
  }

  lemma DemoteNext(s: State, q: Pages, m: nat, t: TaskId, l: Limits, slots: nat)
    requires Reachable(s, l, slots) && Rolled(s, q, m) && |q.hot| == HotCapacity(l.hotLimit)
    requires t !in s.tasks && |s.tasks| < slots && m !in s.locks
    ensures Rolled(Demoted(s, q.hot[0]), Pages(q.warm + [q.hot[0]], q.hot[1..], q.dead), m)
    ensures Reachable(Locked(Demoted(s, q.hot[0]), t, m, WarmScan(m, true)), l, slots)
  {
    var v := q.hot[0];
    MeetNext(s, q, m, m, t, l, slots);
    DemoteShown(s, q);
    MetDemotes(s, t, m, v, l);
    Then(Met(s, t, m, v), Advance(t, true), l, slots);
  }

  lemma LockedGoto(s: State, t: TaskId, n: Name, pc: Pc, pc': Pc)
    ensures Goto(Locked(s, t, n, pc), t, pc') == Locked(s, t, n, pc')
  {
    assert s.tasks[t := pc][t := pc'] == s.tasks[t := pc'];
  }

  /** While the warm tier is within its limit, the task gets past both loops. */
  lemma ScanPasses(s: State, t: TaskId, n: Name, l: Limits, slots: nat)
    requires Reachable(Locked(s, t, n, WarmScan(n, true)), l, slots)
    requires |InTier(s.runtimes, P.Warm)| <= l.warmLimit && |InTier(s.runtimes, P.Hot)| < HotCapacity(l.hotLimit)
    ensures Reachable(Passed(s, t, n), l, slots)
  {
    LockedGoto(s, t, n, WarmScan(n, true), HotScan(n, true));
    Then(Locked(s, t, n, WarmScan(n, true)), Advance(t, true), l, slots);
    VictimIsHot(s, n);
    LockedGoto(s, t, n, HotScan(n, true), Insert(n, true));
    Then(Locked(s, t, n, HotScan(n, true)), Advance(t, true), l, slots);
  }

  /** Serving the next name while the hot tier is full and the warm one is not. */
  lemma RollNext(s: State, q: Pages, m: nat, t: TaskId, l: Limits, slots: nat)
    requires Reachable(s, l, slots) && Rolled(s, q, m) && |q.hot| == HotCapacity(l.hotLimit) && |q.warm| < l.warmLimit
    requires t !in s.tasks && |s.tasks| < slots && m !in s.locks && !OwnsLock(s, t)
    ensures var v := q.hot[0];
            && Reachable(Enter(Demoted(s, v), m), l, slots)
            && Rolled(Enter(Demoted(s, v), m), Pages(q.warm + [v], q.hot[1..] + [m], q.dead), m + 1)
  {
    DemoteNext(s, q, m, t, l, slots);
    var s1, q1 := Demoted(s, q.hot[0]), Pages(q.warm + [q.hot[0]], q.hot[1..], q.dead);
    TierSizes(s1, q1);
    ScanPasses(s1, t, m, l, slots);
    PassedEnters(s1, t, m, l, slots);
    EnterRolled(s1, q1, m);
  }

  /** What task 1 and its lock are while it waits to demote template 0. */
  ghost predicate Waits(s: State, n: Name) {
    s.tasks == map[1 := HotDemote(n, true, 0)] && s.locks == map[n := 1]
  }

  /** Meanwhile calls in another slot push template 0 down to the old end of a full warm tier. */
  lemma {:induction false} RollOn(s: State, q: Pages, m: nat, n: Name, l: Limits, slots: nat)
    returns (s': State, q': Pages, m': nat)
    requires Reachable(s, l, slots) && Rolled(s, q, m) && Waits(s, n) && 2 <= slots
    requires |q.hot| == HotCapacity(l.hotLimit) && |q.warm| <= l.warmLimit && m + (l.warmLimit - |q.warm|) < n
    ensures Reachable(s', l, slots) && Rolled(s', q', m') && Waits(s', n) && m' < n
    ensures |q'.hot| == HotCapacity(l.hotLimit) && |q'.warm| == l.warmLimit && m <= m'
    decreases l.warmLimit - |q.warm|
  {
    s', q', m' := s, q, m;
    if |q.warm| < l.warmLimit {
      RollNext(s, q, m, 2, l, slots);
      var v := q.hot[0];
      s', q' := Enter(Demoted(s, v), m), Pages(q.warm + [v], q.hot[1..] + [m], q.dead);
      s', q', m' := RollOn(s', q', m + 1, n, l, slots);
    }
  }

  function Dropped(s: State, v: Name): State {
    s.(runtimes := s.runtimes - {v}, lru := Without(s.lru, v))
  }

  /** The trimming loop picks the oldest warm template and drops it. */
  lemma DropSteps(d: State, q: Pages, m: nat, t: TaskId, l: Limits)
    requires Shows(d, q) && |q.warm| > l.warmLimit
    ensures TaskStep(Locked(d, t, m, WarmScan(m, true)), t, true, l) == Locked(d, t, m, WarmDrop(m, true, q.warm[0]))
    ensures TaskStep(Locked(d, t, m, WarmDrop(m, true, q.warm[0])), t, true, l)
         == Locked(Dropped(d, q.warm[0]), t, m, WarmScan(m, true))
  {
    TierSizes(d, q);
    WarmVictim(d, q);
    LockedGoto(d, t, m, WarmScan(m, true), WarmDrop(m, true, q.warm[0]));
    LockedGoto(Dropped(d, q.warm[0]), t, m, WarmDrop(m, true, q.warm[0]), WarmScan(m, true));
  }

  /** One more call, and template 0 leaves the map and the deque. */
  lemma DropOldest(s: State, q: Pages, m: nat, l: Limits, slots: nat) returns (s1: State)
    requires Reachable(s, l, slots) && Rolled(s, q, m) && 2 !in s.tasks && |s.tasks| < slots && m !in s.locks
    requires |q.hot| == HotCapacity(l.hotLimit) && |q.warm| == l.warmLimit
    ensures s1.tasks == s.tasks[2 := WarmScan(m, true)] && 0 !in s1.lru
    ensures Reachable(s1, l, slots)
  {
    DemoteNext(s, q, m, 2, l, slots);
    var d, q1 := Demoted(s, q.hot[0]), Pages(q.warm + [q.hot[0]], q.hot[1..], q.dead);
    assert d.lru == q1.warm + q1.hot && q1.warm[0] == d.lru[0] && d.lru[0] in d.lru;
    DropSteps(d, q1, m, 2, l);
    Then(Locked(d, 2, m, WarmScan(m, true)), Advance(2, true), l, slots);
    Then(Locked(d, 2, m, WarmDrop(m, true, 0)), Advance(2, true), l, slots);
    s1 := Locked(Dropped(d, 0), 2, m, WarmScan(m, true));
  }

  /** `x` is warm and out of reach of every victim scan, and no call in flight has to do with it. */
  ghost predicate Stranded(s: State, x: Name) {
    && x in s.runtimes && s.runtimes[x] == P.Warm && x !in s.lru
    && (forall t | t in s.tasks :: LeavesAlone(s.tasks[t], x))
  }

  predicate LeavesAlone(pc: Pc, x: Name) {
    pc.name != x && (pc.HotFetch? || pc.HotDemote? || pc.WarmDrop? ==> pc.victim != x)
  }

  lemma TaskStepStranded(s: State, t: TaskId, ok: bool, x: Name, l: Limits)
    requires Stranded(s, x) && t in s.tasks
    ensures Stranded(TaskStep(s, t, ok, l), x)
  {
    var s', pc := TaskStep(s, t, ok, l), s.tasks[t];
    assert LeavesAlone(pc, x);
    assert pc.HotScan? ==> Oldest(s.lru, s.runtimes, P.Hot, Some(pc.name)) != Some(x);
    assert pc.WarmScan? ==> Oldest(s.lru, s.runtimes, P.Warm, None) != Some(x);
    forall u | u in s'.tasks ensures LeavesAlone(s'.tasks[u], x) {
      assert u in s.tasks;
      assert u != t ==> s'.tasks[u] == s.tasks[u];
    }
  }

  /** Nobody asks for `x` in the actions from the `i`-th on. */
  ghost predicate NotAsked(run: seq<Action>, i: nat, x: Name) {
    forall k | i <= k < |run| :: !(run[k].Arrive? && run[k].name == x)
  }

  /** Stranded it stays, whatever happens, until someone asks for it. */
  lemma {:induction false} StrandedStays(run: seq<Action>, i: nat, x: Name, l: Limits, slots: nat)
    requires i <= |run| && NotAsked(run, i, x) && Stranded(After(run[..i], l, slots), x)
    ensures Stranded(After(run, l, slots), x)
  {
    if i == |run| {
      assert run[..i] == run;
    } else {
      var before, a := run[..|run| - 1], run[|run| - 1];
      var s := After(before, l, slots);
      assert before[..i] == run[..i];
      StrandedStays(before, i, x, l, slots);
      if Enabled(s, a, slots) {
        match a
        case Arrive(t, n) =>
        case Advance(t, ok) => TaskStepStranded(s, t, ok, x, l);
        case Drop(t) =>
      }
    }
  }

  /** The late demotion brings template 0 back into the map, and only there. */
  lemma LateDemotion(s: State, m: Name, n: Name, l: Limits, slots: nat) returns (s': State)
    requires Reachable(s, l, slots) && 0 !in s.lru && m != 0 && n != 0
    requires s.tasks == map[1 := HotDemote(n, true, 0), 2 := WarmScan(m, true)]
    ensures Reachable(s', l, slots) && Stranded(s', 0)
  {
    s' := Goto(Demoted(s, 0), 1, WarmScan(n, true));
    Then(s, Advance(1, true), l, slots);
  }

  /** In any limits, with two slots or more: one call waits to demote template 0 while calls in another slot
      demote it, too, and go on to drop it. */
  lemma TwoSlotsStrand(l: Limits, slots: nat) returns (run: seq<Action>)
    requires 2 <= slots
    ensures Stranded(After(run, l, slots), 0)
  {
    var cap := HotCapacity(l.hotLimit);
    var n, q, m := cap + l.warmLimit + 1, Pages([], [], {}), cap;
    var s;
    s, q := Fill(cap, l, slots);
    assert q.hot[0] == s.lru[0];
    MeetNext(s, q, m, n, 1, l, slots);
    var w := Met(s, 1, n, 0);
    SameShown(s, w, q);
    s, q, m := RollOn(w, q, m, n, l, slots);
    s := DropOldest(s, q, m, l, slots);
    s := LateDemotion(s, m, n, l, slots);
    run :| After(run, l, slots) == s;
  }

  /** With two calls in flight the map and the deque can part, whatever the limits: when all calls have returned, a
      template is warm and not in the deque. With a warm limit of 0 the limit is exceeded at rest. */
  lemma LateDemotionSeparates(l: Limits, slots: nat)
    requires 2 <= slots
    ensures exists run :: var s := After(run, l, slots);
              && s.tasks == map[] && Stranded(s, 0)
              && (l.warmLimit == 0 ==> |InTier(s.runtimes, P.Warm)| > l.warmLimit)
  {
    var run := TwoSlotsStrand(l, slots);
    var run' := AllCanReturn(run, l, slots);
    StrandedStays(run', |run|, 0, l, slots);
    assert 0 in InTier(After(run', l, slots).runtimes, P.Warm);
  }

  ghost predicate SameNames(s: State) {
    s.runtimes.Keys == Elems(s.lru)
  }

  lemma {:induction false} NoSlotsNoRun(run: seq<Action>, l: Limits)
    ensures After(run, l, 0) == IDLE
  {
    if run != [] {
      NoSlotsNoRun(run[..|run| - 1], l);
    }
  }

  lemma OneSlotHasSameNames(run: seq<Action>, l: Limits)
    ensures SameNames(After(run, l, 1))
  {
    SameNamesWhenSerial(run, l);
    assert After(run, l, 1).runtimes.Keys == Elems(After(run, l, 1).lru);
  }

  lemma SerialHasSameNames(run: seq<Action>, l: Limits, slots: nat)
    requires slots <= 1
    ensures SameNames(After(run, l, slots))
  {
    if slots == 0 {
      NoSlotsNoRun(run, l);
    } else {
      assert slots == 1;
      OneSlotHasSameNames(run, l);
    }
  }

  lemma ConcurrentMayPart(l: Limits, slots: nat)
    requires 2 <= slots
    ensures exists run :: !SameNames(After(run, l, slots))
  {
    var run := TwoSlotsStrand(l, slots);
    var s := After(run, l, slots);
    assert 0 in s.runtimes.Keys && 0 !in Elems(s.lru);
  }

  /** For all limits: the map and the deque hold the same names in every run if and only if no two calls can
      be in flight together. */
  lemma SameNamesExactlyWhenSerial(l: Limits, slots: nat)
    ensures slots <= 1 <==> forall run :: SameNames(After(run, l, slots))
  {
    if slots <= 1 {
      forall run ensures SameNames(After(run, l, slots)) {
        SerialHasSameNames(run, l, slots);
      }
    } else {
      ConcurrentMayPart(l, slots);
    }
  }
}
