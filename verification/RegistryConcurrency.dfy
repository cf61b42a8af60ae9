/** The paged registry under concurrent callers.

    Each call to `acquire` is a task; its program counter stops wherever the code gives up the state lock,
    so one step of a task is one critical section. A run is any interleaving of such steps, with requests
    arriving and being dropped at any time, and at most `slots` of them in flight. */
module RegistryConcurrency {
  import opened Prelude
  import opened RecencyPages
  import opened PagedRegistry

  type TaskId = nat

  datatype Pc =
    | Fast(name: Name)                                  // before the fast-path section
    | AwaitLock(name: Name)                             // waiting for the name lock
    | Recheck(name: Name)                               // name lock held from here on
    | RefreshHot(name: Name)                            // the re-check saw Hot and gave up the state lock
    | HotScan(name: Name, cold: bool)                   // top of the demotion loop
    | HotFetch(name: Name, cold: bool, victim: Name)
    | HotDemote(name: Name, cold: bool, victim: Name)   // pausing the victim's containers
    | WarmScan(name: Name, cold: bool)                  // top of the trimming loop
    | WarmDrop(name: Name, cold: bool, victim: Name)
    | Insert(name: Name, cold: bool)                    // past the eviction check, not entered yet

  datatype State = State(runtimes: map<Name, Tier>, lru: seq<Name>, locks: map<Name, TaskId>, tasks: map<TaskId, Pc>)

  const IDLE := State(map[], [], map[], map[])

  /** `ok` resolves what the task cannot control: the template is known, its replicas start. */
  datatype Action = Arrive(t: TaskId, name: Name) | Advance(t: TaskId, ok: bool) | Drop(t: TaskId)

  predicate IsHot(s: State, n: Name) {
    n in s.runtimes && s.runtimes[n] == Hot
  }

  function InTier(runtimes: map<Name, Tier>, tier: Tier): set<Name> {
    set n | n in runtimes && runtimes[n] == tier
  }

  /** The first name of the LRU order in the given tier, other than `exclude`. */
  function Oldest(lru: seq<Name>, runtimes: map<Name, Tier>, tier: Tier, exclude: Option<Name>): (v: Option<Name>)
    ensures v.Some? ==> v.value in lru && v.value in runtimes && runtimes[v.value] == tier && v != exclude
    ensures v.None? ==> forall n | n in lru && n in runtimes && runtimes[n] == tier :: Some(n) == exclude
  {
    if lru == [] then None
    else if Some(lru[0]) != exclude && lru[0] in runtimes && runtimes[lru[0]] == tier then Some(lru[0])
    else Oldest(lru[1..], runtimes, tier, exclude)
  }

  function Goto(s: State, t: TaskId, pc: Pc): State {
    s.(tasks := s.tasks[t := pc])
  }

  /** The task returns, or is dropped: its name lock, if it holds one, is released. */
  function Leave(s: State, t: TaskId): State {
    s.(tasks := s.tasks - {t}, locks := map n | n in s.locks && s.locks[n] != t :: s.locks[n])
  }

  /** Enter `n` as hot and move it to the young end. */
  function Enter(s: State, n: Name): State {
    s.(runtimes := s.runtimes[n := Hot], lru := Without(s.lru, n) + [n])
  }

  /** One critical section of task `t`. */
  function TaskStep(s: State, t: TaskId, ok: bool, l: Limits): State
    requires t in s.tasks
  {
    match s.tasks[t]
    case Fast(n) => if IsHot(s, n) then Leave(Enter(s, n), t) else Goto(s, t, AwaitLock(n))
    case AwaitLock(n) => if n in s.locks then s else Goto(s.(locks := s.locks[n := t]), t, Recheck(n))
    case Recheck(n) =>
      if IsHot(s, n) then Goto(s, t, RefreshHot(n))
      else if n in s.runtimes then Goto(s, t, HotScan(n, false))
      else if ok then Goto(s, t, HotScan(n, true))
      else Leave(s, t)
    case RefreshHot(n) => Leave(Enter(s, n), t)
    case HotScan(n, cold) =>
      var victim := Oldest(s.lru, s.runtimes, Hot, Some(n));
      if |InTier(s.runtimes, Hot)| < l.hotLimit || victim.None? then Goto(s, t, Insert(n, cold))
      else Goto(s, t, HotFetch(n, cold, victim.value))
    case HotFetch(n, cold, v) => Goto(s, t, if v in s.runtimes then HotDemote(n, cold, v) else HotScan(n, cold))
    case HotDemote(n, cold, v) => Goto(s.(runtimes := s.runtimes[v := Warm]), t, WarmScan(n, cold))
    case WarmScan(n, cold) =>
      var victim := Oldest(s.lru, s.runtimes, Warm, None);
      if |InTier(s.runtimes, Warm)| <= l.warmLimit || victim.None? then Goto(s, t, HotScan(n, cold))
      else Goto(s, t, WarmDrop(n, cold, victim.value))
    case WarmDrop(n, cold, v) =>
      Goto(s.(runtimes := s.runtimes - {v}, lru := Without(s.lru, v)), t, WarmScan(n, cold))
    case Insert(n, cold) => if cold && !ok then Leave(s, t) else Leave(Enter(s, n), t)
  }

  predicate Enabled(s: State, a: Action, slots: nat) {
    match a
    case Arrive(t, _) => t !in s.tasks && |s.tasks| < slots
    case Advance(t, _) => t in s.tasks
    case Drop(t) => t in s.tasks
  }

  /** One action; an action that is not enabled does nothing. */
  function Step(s: State, a: Action, l: Limits, slots: nat): State {
    if !Enabled(s, a, slots) then s
    else match a
         case Arrive(t, n) => Goto(s, t, Fast(n))
         case Advance(t, ok) => TaskStep(s, t, ok, l)
         case Drop(t) => Leave(s, t)
  }

  /** The state an interleaving leads to, from the idle registry. */
  function After(run: seq<Action>, l: Limits, slots: nat): State {
    if run == [] then IDLE
    else Step(After(run[..|run| - 1], l, slots), run[|run| - 1], l, slots)
  }

  predicate HoldsLock(pc: Pc) {
    !pc.Fast? && !pc.AwaitLock?
  }

  /** Between the re-check that did not find the name hot and the insertion. */
  predicate Admitting(pc: Pc) {
    HoldsLock(pc) && !pc.Recheck? && !pc.RefreshHot?
  }

  /** What every interleaving keeps. */
  ghost predicate Sound(s: State) {
    && NoDup(s.lru)
    && (forall n | n in s.lru :: n in s.runtimes)
    && (forall n | IsHot(s, n) :: n in s.lru)
    && (forall t | t in s.tasks && HoldsLock(s.tasks[t]) :: s.tasks[t].name in s.locks && s.locks[s.tasks[t].name] == t)
    && (forall t | t in s.tasks && Admitting(s.tasks[t]) :: !IsHot(s, s.tasks[t].name))
  }

  lemma EnterNames(s: State, n: Name)
    requires NoDup(s.lru)
    ensures NoDup(Enter(s, n).lru) && Elems(Enter(s, n).lru) == Elems(s.lru) + {n}
    ensures forall m :: m in Enter(s, n).lru <==> m in s.lru || m == n
  {
    WithoutNoDup(s.lru, n);
    NoDupParts(Without(s.lru, n), [n]);
  }

  lemma LeaveSound(s: State, t: TaskId)
    requires Sound(s)
    ensures Sound(Leave(s, t))
  {
  }

  /** Whoever enters a name as hot either finds it hot already or holds its lock. */
  lemma EnterAndLeaveSound(s: State, t: TaskId)
    requires Sound(s) && t in s.tasks
    requires IsHot(s, s.tasks[t].name) || HoldsLock(s.tasks[t])
    ensures Sound(Leave(Enter(s, s.tasks[t].name), t))
  {
    var n := s.tasks[t].name;
    EnterNames(s, n);
    var s' := Leave(Enter(s, n), t);
    forall u | u in s'.tasks && Admitting(s'.tasks[u]) ensures !IsHot(s', s'.tasks[u].name) {
      assert HoldsLock(s.tasks[u]);
    }
  }

  lemma GotoSound(s: State, t: TaskId, pc: Pc)
    requires Sound(s)
    requires HoldsLock(pc) ==> pc.name in s.locks && s.locks[pc.name] == t
    requires Admitting(pc) ==> !IsHot(s, pc.name)
    ensures Sound(Goto(s, t, pc))
  {
  }

  lemma LockSound(s: State, t: TaskId, n: Name)
    requires Sound(s) && n !in s.locks
    ensures Sound(s.(locks := s.locks[n := t]))
  {
  }

  lemma DemoteSound(s: State, v: Name)
    requires Sound(s)
    ensures Sound(s.(runtimes := s.runtimes[v := Warm]))
  {
    var s' := s.(runtimes := s.runtimes[v := Warm]);
    assert forall n | IsHot(s', n) :: IsHot(s, n);
  }

  lemma DropSound(s: State, v: Name)
    requires Sound(s)
    ensures Sound(s.(runtimes := s.runtimes - {v}, lru := Without(s.lru, v)))
  {
    WithoutNoDup(s.lru, v);
    var s' := s.(runtimes := s.runtimes - {v}, lru := Without(s.lru, v));
    assert forall n | IsHot(s', n) :: IsHot(s, n);
  }

  predicate Enters(s: State, pc: Pc, ok: bool) {
    (pc.Fast? && IsHot(s, pc.name)) || pc.RefreshHot? || (pc.Insert? && !(pc.cold && !ok))
  }

  /** The steps that only move the program counter. */
  predicate Moves(s: State, pc: Pc, ok: bool) {
    match pc
    case Fast(n) => !IsHot(s, n)
    case Recheck(n) => n in s.runtimes || ok
    case HotScan(_, _) => true
    case HotFetch(_, _, _) => true
    case WarmScan(_, _) => true
    case _ => false
  }

  lemma MoveSound(s: State, t: TaskId, ok: bool, l: Limits)
    requires Sound(s) && t in s.tasks && Moves(s, s.tasks[t], ok)
    ensures Sound(TaskStep(s, t, ok, l))
  {
    var pc := TaskStep(s, t, ok, l).tasks[t];
    assert TaskStep(s, t, ok, l) == Goto(s, t, pc);
    GotoSound(s, t, pc);
  }

  lemma DemoteStepSound(s: State, t: TaskId, ok: bool, l: Limits)
    requires Sound(s) && t in s.tasks && s.tasks[t].HotDemote?
    ensures Sound(TaskStep(s, t, ok, l))
  {
    var pc := s.tasks[t];
    DemoteSound(s, pc.victim);
    GotoSound(s.(runtimes := s.runtimes[pc.victim := Warm]), t, WarmScan(pc.name, pc.cold));
  }

  lemma DropStepSound(s: State, t: TaskId, ok: bool, l: Limits)
    requires Sound(s) && t in s.tasks && s.tasks[t].WarmDrop?
    ensures Sound(TaskStep(s, t, ok, l))
  {
    var pc := s.tasks[t];
    DropSound(s, pc.victim);
    var dropped := s.(runtimes := s.runtimes - {pc.victim}, lru := Without(s.lru, pc.victim));
    GotoSound(dropped, t, WarmScan(pc.name, pc.cold));
  }

  lemma LockStepSound(s: State, t: TaskId, ok: bool, l: Limits)
    requires Sound(s) && t in s.tasks && s.tasks[t].AwaitLock?
    ensures Sound(TaskStep(s, t, ok, l))
  {
    var n := s.tasks[t].name;
    if n !in s.locks {
      LockSound(s, t, n);
      GotoSound(s.(locks := s.locks[n := t]), t, Recheck(n));
    }
  }

  lemma OtherStepSound(s: State, t: TaskId, ok: bool, l: Limits)
    requires Sound(s) && t in s.tasks && !Enters(s, s.tasks[t], ok)
    ensures Sound(TaskStep(s, t, ok, l))
  {
    if Moves(s, s.tasks[t], ok) {
      MoveSound(s, t, ok, l);
    } else if s.tasks[t].HotDemote? {
      DemoteStepSound(s, t, ok, l);
    } else if s.tasks[t].WarmDrop? {
      DropStepSound(s, t, ok, l);
    } else if s.tasks[t].AwaitLock? {
      LockStepSound(s, t, ok, l);
    } else {
      LeaveSound(s, t);
    }
  }

  lemma StepSound(s: State, a: Action, l: Limits, slots: nat)
    requires Sound(s)
    ensures Sound(Step(s, a, l, slots))
  {
    if Enabled(s, a, slots) {
      match a
      case Arrive(t, n) =>
      case Advance(t, ok) =>
        if Enters(s, s.tasks[t], ok) {
          EnterAndLeaveSound(s, t);
        } else {
          OtherStepSound(s, t, ok, l);
        }
      case Drop(t) => LeaveSound(s, t);
    }
  }

  lemma TaskStepKeys(s: State, t: TaskId, ok: bool, l: Limits)
    requires t in s.tasks
    ensures TaskStep(s, t, ok, l).tasks.Keys <= s.tasks.Keys
  {
    var s' := TaskStep(s, t, ok, l);
    forall u | u in s'.tasks ensures u in s.tasks {
    }
  }

  lemma StepKeepsSlots(s: State, a: Action, l: Limits, slots: nat)
    requires |s.tasks| <= slots
    ensures |Step(s, a, l, slots).tasks| <= slots
  {
    var s' := Step(s, a, l, slots);
    if Enabled(s, a, slots) {
      if a.Arrive? {
        assert s'.tasks.Keys == s.tasks.Keys + {a.t};
      } else {
        if a.Advance? {
          TaskStepKeys(s, a.t, a.ok, l);
        }
        assert s'.tasks.Keys <= s.tasks.Keys;
        SubsetSize(s'.tasks.Keys, s.tasks.Keys);
      }
    }
  }

  /** Every reachable state is sound, whatever the interleaving and however many calls are in flight. */
  lemma {:induction false} SoundAlways(run: seq<Action>, l: Limits, slots: nat)
    ensures Sound(After(run, l, slots)) && |After(run, l, slots).tasks| <= slots
  {
    if run != [] {
      var before := run[..|run| - 1];
      SoundAlways(before, l, slots);
      StepSound(After(before, l, slots), run[|run| - 1], l, slots);
      StepKeepsSlots(After(before, l, slots), run[|run| - 1], l, slots);
    }
  }

  /** Hence the demotion loop's victim scan comes up empty only when nothing is hot. */
  lemma VictimFound(s: State, t: TaskId)
    requires Sound(s) && t in s.tasks && s.tasks[t].HotScan?
    ensures Oldest(s.lru, s.runtimes, Hot, Some(s.tasks[t].name)) == None <==> InTier(s.runtimes, Hot) == {}
  {
    var n := s.tasks[t].name;
    var hot := InTier(s.runtimes, Hot);
    var victim := Oldest(s.lru, s.runtimes, Hot, Some(n));
    if victim.Some? {
      assert victim.value in hot;
    } else {
      assert forall m | IsHot(s, m) :: m in s.lru && m == n;
    }
  }

  /** The tasks that may still add a hot name without another look at the count. */
  function Pending(s: State): set<TaskId> {
    set t | t in s.tasks && (s.tasks[t].Insert? || (s.tasks[t].RefreshHot? && !IsHot(s, s.tasks[t].name)))
  }

  /** The inductive form of the bound on the hot tier. */
  ghost predicate HotBounded(s: State, l: Limits, slots: nat) {
    |InTier(s.runtimes, Hot)| + |Pending(s)| <= HotCapacity(l.hotLimit) - 1 + slots
  }

  lemma Grow<T>(a: set<T>, b: set<T>, x: T)
    requires a <= b + {x}
    ensures |a| <= |b| + 1
  {
    SubsetSize(a, b + {x});
  }

  lemma LeaveBounded(s: State, t: TaskId, l: Limits, slots: nat)
    requires HotBounded(s, l, slots)
    ensures HotBounded(Leave(s, t), l, slots)
  {
    SubsetSize(Pending(Leave(s, t)), Pending(s));
  }

  /** Entering a name costs the pending slot its task had, or the name was hot already. */
  lemma EnterBounded(s: State, t: TaskId, l: Limits, slots: nat)
    requires Sound(s) && t in s.tasks && HotBounded(s, l, slots)
    requires IsHot(s, s.tasks[t].name) || t in Pending(s)
    ensures HotBounded(Leave(Enter(s, s.tasks[t].name), t), l, slots)
  {
    var n := s.tasks[t].name;
    var s' := Leave(Enter(s, n), t);
    EnterSets(s, t);
    SubsetSize(Pending(s'), Pending(s) - {t});
  }

  lemma EnterSets(s: State, t: TaskId)
    requires t in s.tasks
    ensures var s' := Leave(Enter(s, s.tasks[t].name), t);
            && InTier(s'.runtimes, Hot) == InTier(s.runtimes, Hot) + {s.tasks[t].name}
            && Pending(s') <= Pending(s) - {t}
  {
    var s' := Leave(Enter(s, s.tasks[t].name), t);
    forall u | u in Pending(s') ensures u in Pending(s) - {t} {
      assert s'.tasks[u] == s.tasks[u];
    }
  }

  /** Losing a hot name makes at most one task pending again: the one refreshing it under its lock. */
  lemma LoseBounded(s: State, s': State, v: Name, l: Limits, slots: nat)
    requires Sound(s) && HotBounded(s, l, slots)
    requires InTier(s'.runtimes, Hot) == InTier(s.runtimes, Hot) - {v}
    requires forall t | t in s'.tasks && (s'.tasks[t].Insert? || s'.tasks[t].RefreshHot?) ::
               t in s.tasks && s.tasks[t] == s'.tasks[t]
    ensures HotBounded(s', l, slots)
  {
    var hot, hot' := InTier(s.runtimes, Hot), InTier(s'.runtimes, Hot);
    forall t | t in Pending(s') && t !in Pending(s) ensures IsHot(s, v) && v in s.locks && t == s.locks[v] {
      assert IsHot(s, s.tasks[t].name) && s.tasks[t].name !in hot';
    }
    if IsHot(s, v) && v in s.locks {
      Grow(Pending(s'), Pending(s), s.locks[v]);
    } else {
      SubsetSize(Pending(s'), Pending(s));
    }
  }

  /** A task passes the eviction check only while a hot slot is free; all others are in flight. */
  lemma PassBounded(s: State, t: TaskId, l: Limits, slots: nat)
    requires Sound(s) && t in s.tasks && s.tasks[t].HotScan? && |s.tasks| <= slots
    ensures var s' := TaskStep(s, t, true, l);
            s'.tasks[t].Insert? ==> HotBounded(s', l, slots)
  {
    var s' := TaskStep(s, t, true, l);
    VictimFound(s, t);
    assert s'.tasks.Keys == s.tasks.Keys;
    SubsetSize(Pending(s'), s'.tasks.Keys);
  }

  /** The steps that leave the map alone. */
  lemma QuietStep(s: State, t: TaskId, ok: bool, l: Limits)
    requires t in s.tasks && !Enters(s, s.tasks[t], ok) && !s.tasks[t].HotDemote? && !s.tasks[t].WarmDrop?
    ensures var s' := TaskStep(s, t, ok, l);
            && s'.runtimes == s.runtimes
            && (forall u | u in s'.tasks && u != t :: u in s.tasks && s'.tasks[u] == s.tasks[u])
            && (t in s'.tasks && s'.tasks[t].RefreshHot? ==> IsHot(s, s'.tasks[t].name))
            && (t in s'.tasks && s'.tasks[t].Insert? ==> s.tasks[t].HotScan?)
  {
    var s' := TaskStep(s, t, ok, l);
    if Moves(s, s.tasks[t], ok) {
      assert s' == Goto(s, t, s'.tasks[t]);
    } else if s.tasks[t].AwaitLock? {
      var n := s.tasks[t].name;
      assert s' == s || s' == Goto(s.(locks := s.locks[n := t]), t, Recheck(n));
    } else {
      assert s' == Leave(s, t);
    }
  }

  lemma QuietBounded(s: State, s': State, l: Limits, slots: nat)
    requires HotBounded(s, l, slots) && s'.runtimes == s.runtimes
    requires Pending(s') <= Pending(s)
    ensures HotBounded(s', l, slots)
  {
    SubsetSize(Pending(s'), Pending(s));
  }

  lemma OtherStepBounded(s: State, t: TaskId, ok: bool, l: Limits, slots: nat)
    requires Sound(s) && t in s.tasks && |s.tasks| <= slots && HotBounded(s, l, slots)
    requires !Enters(s, s.tasks[t], ok) && !s.tasks[t].HotDemote? && !s.tasks[t].WarmDrop?
    ensures HotBounded(TaskStep(s, t, ok, l), l, slots)
  {
    var s' := TaskStep(s, t, ok, l);
    QuietStep(s, t, ok, l);
    if t in s'.tasks && s'.tasks[t].Insert? {
      PassBounded(s, t, l, slots);
    } else {
      QuietBounded(s, s', l, slots);
    }
  }

  lemma TaskStepBounded(s: State, t: TaskId, ok: bool, l: Limits, slots: nat)
    requires Sound(s) && t in s.tasks && |s.tasks| <= slots && HotBounded(s, l, slots)
    ensures HotBounded(TaskStep(s, t, ok, l), l, slots)
  {
    var s' := TaskStep(s, t, ok, l);
    if Enters(s, s.tasks[t], ok) {
      EnterBounded(s, t, l, slots);
    } else if s.tasks[t].HotDemote? || s.tasks[t].WarmDrop? {
      LoseBounded(s, s', s.tasks[t].victim, l, slots);
    } else {
      OtherStepBounded(s, t, ok, l, slots);
    }
  }

  /** With at most `slots` calls in flight, no interleaving ever has more than this many hot templates. */
  lemma {:induction false} HotNeverExceeds(run: seq<Action>, l: Limits, slots: nat)
    ensures HotBounded(After(run, l, slots), l, slots)
    ensures |InTier(After(run, l, slots).runtimes, Hot)| <= HotCapacity(l.hotLimit) - 1 + slots
  {
    if run == [] {
      assert Pending(IDLE) == {} && InTier(IDLE.runtimes, Hot) == {};
    } else {
      var s, a := After(run[..|run| - 1], l, slots), run[|run| - 1];
      HotNeverExceeds(run[..|run| - 1], l, slots);
      SoundAlways(run[..|run| - 1], l, slots);
      if Enabled(s, a, slots) {
        match a
        case Arrive(t, n) => assert Pending(Goto(s, t, Fast(n))) == Pending(s);
        case Advance(t, ok) => TaskStepBounded(s, t, ok, l, slots);
        case Drop(t) => LeaveBounded(s, t, l, slots);
      }
    }
  }

  // ---- One call at a time ----

  /** With a single call in flight the map and the LRU deque also hold the same names. */
  ghost predicate Serial(s: State) {
    && Sound(s)
    && (forall n | n in s.runtimes :: n in s.lru)
    && (forall t | t in s.tasks && (s.tasks[t].HotFetch? || s.tasks[t].HotDemote?) :: s.tasks[t].victim in s.lru)
    && (forall t, u | t in s.tasks && u in s.tasks :: t == u)
  }

  lemma SerialMove(s: State, t: TaskId, ok: bool, l: Limits)
    requires Serial(s) && t in s.tasks && Moves(s, s.tasks[t], ok)
    requires Sound(TaskStep(s, t, ok, l))
    ensures Serial(TaskStep(s, t, ok, l))
  {
    var pc := TaskStep(s, t, ok, l).tasks[t];
    assert TaskStep(s, t, ok, l) == Goto(s, t, pc);
    assert pc.HotFetch? || pc.HotDemote? ==> pc.victim in s.lru;
  }

  lemma SerialEnter(s: State, t: TaskId, ok: bool, l: Limits)
    requires Serial(s) && t in s.tasks && Enters(s, s.tasks[t], ok)
    requires Sound(TaskStep(s, t, ok, l))
    ensures Serial(TaskStep(s, t, ok, l))
  {
    var n := s.tasks[t].name;
    EnterNames(s, n);
    assert TaskStep(s, t, ok, l) == Leave(Enter(s, n), t);
  }

  lemma SerialStep(s: State, t: TaskId, ok: bool, l: Limits)
    requires Serial(s) && t in s.tasks
    requires Sound(TaskStep(s, t, ok, l))
    ensures Serial(TaskStep(s, t, ok, l))
  {
    TaskStepKeys(s, t, ok, l);
    if Enters(s, s.tasks[t], ok) {
      SerialEnter(s, t, ok, l);
    } else if Moves(s, s.tasks[t], ok) {
      SerialMove(s, t, ok, l);
    }
  }

  /** One call at a time, dropped requests included, never separates the map from the LRU deque. */
  lemma {:induction false} SameNamesWhenSerial(run: seq<Action>, l: Limits)
    ensures Serial(After(run, l, 1))
    ensures After(run, l, 1).runtimes.Keys == Elems(After(run, l, 1).lru)
  {
    SoundAlways(run, l, 1);
    if run != [] {
      var s, a := After(run[..|run| - 1], l, 1), run[|run| - 1];
      SameNamesWhenSerial(run[..|run| - 1], l);
      if Enabled(s, a, 1) {
        match a
        case Arrive(t, n) => assert s.tasks.Keys == {};
        case Advance(t, ok) => SerialStep(s, t, ok, l);
        case Drop(t) =>
      }
    }
  }
}
