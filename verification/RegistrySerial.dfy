/** One call at a time, the step machine of RegistryConcurrency does what RegistryRuns says: the two models of
    the registry are models of the same thing. */
module RegistrySerial {
  import opened Prelude
  import opened RecencyPages
  import opened RegistryConcurrency
  import P = PagedRegistry
  import Runs = RegistryRuns

  /** The map and the deque of `s` hold the pages `q`. */
  ghost predicate Shows(s: State, q: Pages) {
    && WellFormed(q)
    && s.lru == q.warm + q.hot
    && s.runtimes.Keys == Elems(s.lru)
    && (forall n | n in q.warm :: n in s.runtimes && s.runtimes[n] == P.Warm)
    && (forall n | n in q.hot :: n in s.runtimes && s.runtimes[n] == P.Hot)
  }

  lemma Residents(s: State, q: Pages, n: Name)
    requires Shows(s, q)
    ensures IsHot(s, n) <==> n in q.hot
    ensures n in s.runtimes <==> n in q.warm || n in q.hot
    ensures n in s.runtimes && !IsHot(s, n) <==> n in q.warm
  {
    NoDupParts(q.warm, q.hot);
    assert n in s.lru <==> n in q.warm || n in q.hot;
    assert n in s.runtimes.Keys <==> n in s.lru;
  }

  lemma TierSizes(s: State, q: Pages)
    requires Shows(s, q)
    ensures |InTier(s.runtimes, P.Hot)| == |q.hot| && |InTier(s.runtimes, P.Warm)| == |q.warm|
  {
    NoDupParts(q.warm, q.hot);
    NoDupSize(q.warm);
    NoDupSize(q.hot);
    forall n ensures n in InTier(s.runtimes, P.Hot) <==> n in Elems(q.hot) {
      Residents(s, q, n);
    }
    forall n ensures n in InTier(s.runtimes, P.Warm) <==> n in Elems(q.warm) {
      Residents(s, q, n);
    }
    assert InTier(s.runtimes, P.Hot) == Elems(q.hot);
    assert InTier(s.runtimes, P.Warm) == Elems(q.warm);
  }

  lemma {:induction false} OldestSkips(
    a: seq<Name>, b: seq<Name>, runtimes: map<Name, P.Tier>, tier: P.Tier, exclude: Option<Name>)
    requires forall n | n in a :: n !in runtimes || runtimes[n] != tier
    ensures Oldest(a + b, runtimes, tier, exclude) == Oldest(b, runtimes, tier, exclude)
  {
    if a == [] {
      assert a + b == b;
    } else {
      assert (a + b)[1..] == a[1..] + b && a[0] in a;
      OldestSkips(a[1..], b, runtimes, tier, exclude);
    }
  }

  lemma HotVictim(s: State, q: Pages, n: Name)
    requires Shows(s, q) && n !in q.hot
    ensures Oldest(s.lru, s.runtimes, P.Hot, Some(n)) == if q.hot == [] then None else Some(q.hot[0])
  {
    OldestSkips(q.warm, q.hot, s.runtimes, P.Hot, Some(n));
  }

  lemma WarmVictim(s: State, q: Pages)
    requires Shows(s, q) && q.warm != []
    ensures Oldest(s.lru, s.runtimes, P.Warm, None) == Some(q.warm[0])
  {
    assert s.lru[0] == q.warm[0];
  }

  // ---- What the steps do to the pages ----

  /** The step of a task that does not touch the map or the deque. */
  lemma SameShown(s: State, s': State, q: Pages)
    requires Shows(s, q) && s'.lru == s.lru && s'.runtimes == s.runtimes
    ensures Shows(s', q)
  {
  }

  lemma EnterShown(s: State, q: Pages, n: Name, t: TaskId, r: Pages)
    requires Shows(s, q) && WellFormed(r) && r.warm == Without(q.warm, n) && r.hot == Without(q.hot, n) + [n]
    ensures Shows(Leave(Enter(s, n), t), r)
  {
    MoveToBackParts(q.warm, q.hot, n);
    var s' := Leave(Enter(s, n), t);
    assert s'.lru == r.warm + r.hot;
    assert s'.runtimes.Keys == s.runtimes.Keys + {n};
    forall m | m in r.hot ensures m in s'.runtimes && s'.runtimes[m] == P.Hot {
      assert m == n || m in q.hot;
    }
  }

  lemma DemoteShown(s: State, q: Pages)
    requires Shows(s, q) && q.hot != []
    ensures Shows(s.(runtimes := s.runtimes[q.hot[0] := P.Warm]), Pages(q.warm + [q.hot[0]], q.hot[1..], q.dead))
  {
    DemoteNames(q);
    assert forall m | m in q.hot[1..] :: m in q.hot;
  }

  lemma DropShown(s: State, q: Pages)
    requires Shows(s, q) && q.warm != []
    ensures var v := q.warm[0];
            Shows(s.(runtimes := s.runtimes - {v}, lru := Without(s.lru, v)), Pages(q.warm[1..], q.hot, q.dead - {v}))
  {
    DropNames(q);
    assert forall m | m in q.warm[1..] :: m in q.warm;
  }

  // ---- One call in flight ----

  function Room(p: Pages, l: Limits): Pages {
    MakeRoom(p, HotCapacity(l.hotLimit), l.warmLimit)
  }

  /** A task that found `p` and has the pages at `q` now. */
  ghost predicate At(pc: Pc, p: Pages, q: Pages, l: Limits) {
    match pc
    case Fast(_) => q == p
    case AwaitLock(_) => q == p
    case Recheck(_) => q == p
    case RefreshHot(n) => q == p && n in p.hot
    case HotScan(n, cold) => Missed(n, cold, p) && Room(q, l) == Room(p, l)
    case HotFetch(n, cold, v) => Missed(n, cold, p) && Room(q, l) == Room(p, l) && Demotes(q, v, l)
    case HotDemote(n, cold, v) => Missed(n, cold, p) && Room(q, l) == Room(p, l) && Demotes(q, v, l)
    case WarmScan(n, cold) => Missed(n, cold, p) && Room(TrimWarm(q, l.warmLimit), l) == Room(p, l)
    case WarmDrop(n, cold, v) =>
      Missed(n, cold, p) && Room(TrimWarm(q, l.warmLimit), l) == Room(p, l)
      && |q.warm| > l.warmLimit && v == q.warm[0]
    case Insert(n, cold) => Missed(n, cold, p) && q == Room(p, l)
  }

  predicate Missed(n: Name, cold: bool, p: Pages) {
    n !in p.hot && (cold <==> n !in p.warm)
  }

  predicate Demotes(q: Pages, v: Name, l: Limits) {
    |q.hot| >= HotCapacity(l.hotLimit) && v == q.hot[0]
  }

  /** How a step leaves its call: still in flight with the pages at `pages`, or done. */
  datatype Progress = InFlight(pages: Pages) | Done(cold: Cold)

  ghost predicate Advanced(s: State, t: TaskId, n: Name, p: Pages, l: Limits, progress: Progress) {
    match progress
    case InFlight(q) =>
      t in s.tasks && s.tasks[t].name == n && Shows(s, q) && At(s.tasks[t], p, q, l)
    case Done(cold) => t !in s.tasks && Shows(s, Runs.Step(p, Runs.Call(n, cold), l))
  }

  lemma StepWellFormed(p: Pages, c: Runs.Call, l: Limits)
    requires Runs.WithinLimits(p, l)
    ensures Runs.WithinLimits(Runs.Step(p, c, l), l)
  {
    Runs.CallWithinLimits(p, c, l);
  }

  /** A call that is served from the hot tier. */
  lemma ServesHot(s: State, t: TaskId, p: Pages, l: Limits)
    requires t in s.tasks && Shows(s, p) && s.tasks[t].name in p.hot && Runs.WithinLimits(p, l)
    ensures Advanced(Leave(Enter(s, s.tasks[t].name), t), t, s.tasks[t].name, p, l, Done(Starts))
  {
    var n := s.tasks[t].name;
    var r := Runs.Step(p, Runs.Call(n, Starts), l);
    StepWellFormed(p, Runs.Call(n, Starts), l);
    NoDupParts(p.warm, p.hot);
    assert r == p.(hot := Without(p.hot, n) + [n]);
    EnterShown(s, p, n, t, r);
  }

  lemma GotoAdvanced(s: State, t: TaskId, pc: Pc, p: Pages, q: Pages, l: Limits)
    requires Shows(s, q) && At(pc, p, q, l)
    ensures Advanced(Goto(s, t, pc), t, pc.name, p, l, InFlight(q))
  {
    SameShown(s, Goto(s, t, pc), q);
  }

  lemma LeaveAdvanced(s: State, t: TaskId, n: Name, p: Pages, l: Limits, cold: Cold)
    requires Shows(s, Runs.Step(p, Runs.Call(n, cold), l))
    ensures Advanced(Leave(s, t), t, n, p, l, Done(cold))
  {
    SameShown(s, Leave(s, t), Runs.Step(p, Runs.Call(n, cold), l));
  }

  /** Before the name is known to be missing from the hot tier. */
  lemma EarlyStep(s: State, t: TaskId, ok: bool, p: Pages, l: Limits) returns (progress: Progress)
    requires t in s.tasks && Shows(s, p) && Runs.WithinLimits(p, l) && At(s.tasks[t], p, p, l)
    requires s.tasks[t].Fast? || s.tasks[t].AwaitLock? || s.tasks[t].Recheck? || s.tasks[t].RefreshHot?
    ensures Advanced(TaskStep(s, t, ok, l), t, s.tasks[t].name, p, l, progress)
  {
    var n := s.tasks[t].name;
    Residents(s, p, n);
    progress := InFlight(p);
    match s.tasks[t]
    case Fast(_) =>
      if IsHot(s, n) {
        ServesHot(s, t, p, l);
        progress := Done(Starts);
      } else {
        GotoAdvanced(s, t, AwaitLock(n), p, p, l);
      }
    case AwaitLock(_) =>
      if n !in s.locks {
        SameShown(s, s.(locks := s.locks[n := t]), p);
        GotoAdvanced(s.(locks := s.locks[n := t]), t, Recheck(n), p, p, l);
      }
    case Recheck(_) =>
      if IsHot(s, n) {
        GotoAdvanced(s, t, RefreshHot(n), p, p, l);
      } else if n in s.runtimes {
        GotoAdvanced(s, t, HotScan(n, false), p, p, l);
      } else if ok {
        GotoAdvanced(s, t, HotScan(n, true), p, p, l);
      } else {
        LeaveAdvanced(s, t, n, p, l, Unknown);
        progress := Done(Unknown);
      }
    case RefreshHot(_) =>
      ServesHot(s, t, p, l);
      progress := Done(Starts);
  }

  lemma HotScanStep(s: State, t: TaskId, p: Pages, q: Pages, l: Limits)
    requires t in s.tasks && s.tasks[t].HotScan? && Shows(s, q) && At(s.tasks[t], p, q, l)
    requires s.tasks[t].name !in q.hot
    ensures Advanced(TaskStep(s, t, true, l), t, s.tasks[t].name, p, l, InFlight(q))
    ensures TaskStep(s, t, false, l) == TaskStep(s, t, true, l)
  {
    var n, cold := s.tasks[t].name, s.tasks[t].cold;
    TierSizes(s, q);
    HotVictim(s, q, n);
    if |q.hot| < HotCapacity(l.hotLimit) {
      GotoAdvanced(s, t, Insert(n, cold), p, q, l);
    } else {
      GotoAdvanced(s, t, HotFetch(n, cold, q.hot[0]), p, q, l);
    }
  }

  lemma HotFetchStep(s: State, t: TaskId, ok: bool, p: Pages, q: Pages, l: Limits)
    requires t in s.tasks && s.tasks[t].HotFetch? && Shows(s, q) && At(s.tasks[t], p, q, l)
    ensures Advanced(TaskStep(s, t, ok, l), t, s.tasks[t].name, p, l, InFlight(q))
  {
    var pc := s.tasks[t];
    Residents(s, q, pc.victim);
    GotoAdvanced(s, t, HotDemote(pc.name, pc.cold, pc.victim), p, q, l);
  }

  lemma HotDemoteStep(s: State, t: TaskId, ok: bool, p: Pages, q: Pages, l: Limits) returns (q': Pages)
    requires t in s.tasks && s.tasks[t].HotDemote? && Shows(s, q) && At(s.tasks[t], p, q, l)
    ensures Advanced(TaskStep(s, t, ok, l), t, s.tasks[t].name, p, l, InFlight(q'))
  {
    var pc := s.tasks[t];
    q' := Pages(q.warm + [pc.victim], q.hot[1..], q.dead);
    DemoteShown(s, q);
    DemoteOneTowardsRoom(q, HotCapacity(l.hotLimit), l.warmLimit);
    GotoAdvanced(s.(runtimes := s.runtimes[pc.victim := P.Warm]), t, WarmScan(pc.name, pc.cold), p, q', l);
  }

  lemma WarmScanStep(s: State, t: TaskId, ok: bool, p: Pages, q: Pages, l: Limits)
    requires t in s.tasks && s.tasks[t].WarmScan? && Shows(s, q) && At(s.tasks[t], p, q, l)
    ensures Advanced(TaskStep(s, t, ok, l), t, s.tasks[t].name, p, l, InFlight(q))
  {
    var n, cold := s.tasks[t].name, s.tasks[t].cold;
    TierSizes(s, q);
    if |q.warm| <= l.warmLimit {
      NothingToTrim(q, l.warmLimit);
      GotoAdvanced(s, t, HotScan(n, cold), p, q, l);
    } else {
      WarmVictim(s, q);
      GotoAdvanced(s, t, WarmDrop(n, cold, q.warm[0]), p, q, l);
    }
  }

  lemma NothingToTrim(q: Pages, warmLimit: nat)
    requires |q.warm| <= warmLimit
    ensures TrimWarm(q, warmLimit) == q
  {
    assert q.warm[..0] == [];
  }

  lemma WarmDropStep(s: State, t: TaskId, ok: bool, p: Pages, q: Pages, l: Limits) returns (q': Pages)
    requires t in s.tasks && s.tasks[t].WarmDrop? && Shows(s, q) && At(s.tasks[t], p, q, l)
    ensures Advanced(TaskStep(s, t, ok, l), t, s.tasks[t].name, p, l, InFlight(q'))
  {
    var pc := s.tasks[t];
    q' := Pages(q.warm[1..], q.hot, q.dead - {pc.victim});
    DropShown(s, q);
    TrimOne(q, l.warmLimit);
    var s1 := s.(runtimes := s.runtimes - {pc.victim}, lru := Without(s.lru, pc.victim));
    GotoAdvanced(s1, t, WarmScan(pc.name, pc.cold), p, q', l);
  }

  lemma InsertStep(s: State, t: TaskId, ok: bool, p: Pages, q: Pages, l: Limits) returns (cold: Cold)
    requires t in s.tasks && s.tasks[t].Insert? && Shows(s, q) && At(s.tasks[t], p, q, l) && Runs.WithinLimits(p, l)
    ensures Advanced(TaskStep(s, t, ok, l), t, s.tasks[t].name, p, l, Done(cold))
  {
    var pc := s.tasks[t];
    cold := if pc.cold && !ok then Fails else Starts;
    if cold == Fails {
      assert pc.name !in p.warm + p.hot;
      LeaveAdvanced(s, t, pc.name, p, l, Fails);
    } else {
      var r := Runs.Step(p, Runs.Call(pc.name, Starts), l);
      StepWellFormed(p, Runs.Call(pc.name, Starts), l);
      var _ := Runs.RoomDropsOldest(p, l);
      assert pc.name !in q.hot;
      EnterShown(s, q, pc.name, t, r);
    }
  }

  /** Every step of the one call in flight. */
  lemma CallStep(s: State, t: TaskId, ok: bool, p: Pages, q: Pages, l: Limits) returns (progress: Progress)
    requires Sound(s) && t in s.tasks && Shows(s, q) && Runs.WithinLimits(p, l) && At(s.tasks[t], p, q, l)
    ensures Advanced(TaskStep(s, t, ok, l), t, s.tasks[t].name, p, l, progress)
  {
    progress := InFlight(q);
    match s.tasks[t]
    case HotScan(n, _) =>
      Residents(s, q, n);
      HotScanStep(s, t, p, q, l);
    case HotFetch(_, _, _) => HotFetchStep(s, t, ok, p, q, l);
    case HotDemote(_, _, _) =>
      var q' := HotDemoteStep(s, t, ok, p, q, l);
      progress := InFlight(q');
    case WarmScan(_, _) => WarmScanStep(s, t, ok, p, q, l);
    case WarmDrop(_, _, _) =>
      var q' := WarmDropStep(s, t, ok, p, q, l);
      progress := InFlight(q');
    case Insert(_, _) =>
      var cold := InsertStep(s, t, ok, p, q, l);
      progress := Done(cold);
    case _ => progress := EarlyStep(s, t, ok, p, l);
  }

  // ---- Whole runs ----

  /** No request is abandoned. */
  ghost predicate NoDrop(run: seq<Action>) {
    run == [] || (!run[|run| - 1].Drop? && NoDrop(run[..|run| - 1]))
  }

  /** The names of the requests that got in, in order. */
  function Asked(run: seq<Action>, l: Limits): seq<Name> {
    if run == [] then []
    else
      var before, last := run[..|run| - 1], run[|run| - 1];
      if last.Arrive? && Enabled(After(before, l, 1), last, 1) then Asked(before, l) + [last.name] else Asked(before, l)
  }

  function Names(calls: seq<Runs.Call>): seq<Name> {
    if calls == [] then [] else Names(calls[..|calls| - 1]) + [calls[|calls| - 1].name]
  }

  /** The finished calls account for the state: alone when no call is in flight, else up to that call. */
  ghost predicate Accounts(s: State, calls: seq<Runs.Call>, q: Pages, asked: seq<Name>, l: Limits) {
    var p := Runs.After(calls, l);
    && Shows(s, q)
    && (s.tasks == map[] ==> q == p && Names(calls) == asked)
    && (forall t | t in s.tasks ::
          s.tasks == map[t := s.tasks[t]] && At(s.tasks[t], p, q, l) && Names(calls) + [s.tasks[t].name] == asked)
  }

  lemma OneMoreCall(calls: seq<Runs.Call>, c: Runs.Call, l: Limits)
    ensures Runs.After(calls + [c], l) == Runs.Step(Runs.After(calls, l), c, l)
    ensures Names(calls + [c]) == Names(calls) + [c.name]
  {
    InitAndLast(calls, c);
  }

  lemma ArriveAccounts(s: State, calls: seq<Runs.Call>, q: Pages, asked: seq<Name>, l: Limits, t: TaskId, n: Name)
    requires Accounts(s, calls, q, asked, l) && s.tasks == map[]
    ensures Accounts(Goto(s, t, Fast(n)), calls, q, asked + [n], l)
  {
    SameShown(s, Goto(s, t, Fast(n)), q);
    assert t in Goto(s, t, Fast(n)).tasks;
  }

  lemma InFlightAccounts(s: State, calls: seq<Runs.Call>, q: Pages, asked: seq<Name>, l: Limits, t: TaskId, n: Name)
    requires s.tasks.Keys <= {t} && Names(calls) + [n] == asked
    requires Advanced(s, t, n, Runs.After(calls, l), l, InFlight(q))
    ensures Accounts(s, calls, q, asked, l)
  {
    assert t in s.tasks.Keys;
    forall u | u in s.tasks ensures u == t {
      assert u in s.tasks.Keys;
    }
    assert s.tasks == map[t := s.tasks[t]];
  }

  lemma DoneAccounts(s: State, calls: seq<Runs.Call>, asked: seq<Name>, l: Limits, t: TaskId, n: Name, cold: Cold)
    requires s.tasks.Keys <= {t} && Names(calls) + [n] == asked
    requires Advanced(s, t, n, Runs.After(calls, l), l, Done(cold))
    ensures var c := Runs.Call(n, cold);
            Accounts(s, calls + [c], Runs.Step(Runs.After(calls, l), c, l), asked, l)
  {
    OneMoreCall(calls, Runs.Call(n, cold), l);
    assert t !in s.tasks.Keys;
    assert s.tasks.Keys == {};
  }

  lemma AdvanceAccounts(s: State, calls: seq<Runs.Call>, q: Pages, asked: seq<Name>, l: Limits, t: TaskId, ok: bool)
    returns (calls': seq<Runs.Call>, q': Pages)
    requires Accounts(s, calls, q, asked, l) && Sound(s) && t in s.tasks && Runs.WithinLimits(Runs.After(calls, l), l)
    ensures Accounts(TaskStep(s, t, ok, l), calls', q', asked, l)
  {
    var p, n := Runs.After(calls, l), s.tasks[t].name;
    var progress := CallStep(s, t, ok, p, q, l);
    TaskStepKeys(s, t, ok, l);
    assert s.tasks.Keys == {t};
    match progress
    case InFlight(q1) =>
      calls', q' := calls, q1;
      InFlightAccounts(TaskStep(s, t, ok, l), calls, q1, asked, l, t, n);
    case Done(cold) =>
      calls', q' := calls + [Runs.Call(n, cold)], Runs.Step(p, Runs.Call(n, cold), l);
      DoneAccounts(TaskStep(s, t, ok, l), calls, asked, l, t, n, cold);
  }

  /** With one slot and no abandoned request, every state is accounted for by the calls that have finished; in
      particular, whenever none is in flight, the deque and the tiers are those of the sequential run of the
      requests that got in, in their order. */
  lemma {:induction false} SerialRunsAreRuns(run: seq<Action>, l: Limits) returns (calls: seq<Runs.Call>, q: Pages)
    requires NoDrop(run)
    ensures Accounts(After(run, l, 1), calls, q, Asked(run, l), l)
  {
    if run == [] {
      calls, q := [], Pages([], [], {});
    } else {
      var before, a := run[..|run| - 1], run[|run| - 1];
      var s := After(before, l, 1);
      calls, q := SerialRunsAreRuns(before, l);
      if Enabled(s, a, 1) {
        match a
        case Arrive(t, n) =>
          assert s.tasks.Keys == {};
          ArriveAccounts(s, calls, q, Asked(before, l), l, t, n);
        case Advance(t, ok) =>
          SoundAlways(before, l, 1);
          var _ := Runs.RunRefinesRecencyList(calls, l);
          calls, q := AdvanceAccounts(s, calls, q, Asked(before, l), l, t, ok);
      }
    }
  }

  /** The statement for a reader: between calls, map and deque are what the sequential specification says. */
  lemma SerialRunsAreRunsBetweenCalls(run: seq<Action>, l: Limits) returns (calls: seq<Runs.Call>)
    requires NoDrop(run) && After(run, l, 1).tasks == map[]
    ensures Names(calls) == Asked(run, l) && Shows(After(run, l, 1), Runs.After(calls, l))
  {
    var q;
    calls, q := SerialRunsAreRuns(run, l);
  }
}
