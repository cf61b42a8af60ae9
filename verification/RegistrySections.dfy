/** What each critical section of the concurrent registry does, in any state and whatever other calls have done since
    the section before it. */
module RegistrySections {
  import opened Prelude
  import opened RecencyPages
  import opened PagedRegistry
  import opened RegistryConcurrency

  /** The call ends in an error: there is no such template, or a cold start failed. */
  predicate EndsInError(s: State, pc: Pc, ok: bool) {
    !ok && ((pc.Recheck? && pc.name !in s.runtimes) || (pc.Insert? && pc.cold))
  }

  /** `n` is hot and has been moved to the young end of the deque; nothing else has changed. */
  ghost predicate Entered(s: State, s': State, n: Name) {
    && n in s'.runtimes && s'.runtimes[n] == Hot
    && |s'.lru| > 0 && s'.lru[|s'.lru| - 1] == n && n !in s'.lru[..|s'.lru| - 1]
    && OthersKept(s, s', n)
  }

  /** Map and deque are as before, but for `n`. */
  ghost predicate OthersKept(s: State, s': State, n: Name) {
    && (forall m | m != n :: m in s'.runtimes <==> m in s.runtimes)
    && (forall m | m != n && m in s.runtimes :: s'.runtimes[m] == s.runtimes[m])
    && Without(s'.lru, n) == Without(s.lru, n)
  }

  lemma AppendedLast(lru: seq<Name>, n: Name)
    ensures var lru' := Without(lru, n) + [n];
            && lru'[|lru'| - 1] == n && n !in lru'[..|lru'| - 1] && Without(lru', n) == Without(lru, n)
  {
    var rest := Without(lru, n);
    assert (rest + [n])[..|rest + [n]| - 1] == rest;
    WithoutConcat(rest, [n], n);
    assert Without([n], n) == [] && rest + [] == rest;
  }

  lemma EnterEnters(s: State, n: Name, s': State)
    requires s'.runtimes == s.runtimes[n := Hot] && s'.lru == Without(s.lru, n) + [n]
    ensures Entered(s, s', n)
  {
    AppendedLast(s.lru, n);
  }

  lemma EndsHow(s: State, t: TaskId, ok: bool, l: Limits)
    requires t in s.tasks && t !in TaskStep(s, t, ok, l).tasks
    ensures TaskStep(s, t, ok, l) == Leave(if EndsInError(s, s.tasks[t], ok) then s else Enter(s, s.tasks[t].name), t)
  {
  }

  /** Whatever happened while a call waited: when it returns a runtime, its name is hot and the youngest, and when
      it returns an error, map and deque are left alone. */
  lemma ReturnsHot(s: State, t: TaskId, ok: bool, l: Limits)
    requires t in s.tasks && t !in TaskStep(s, t, ok, l).tasks
    ensures var s', pc := TaskStep(s, t, ok, l), s.tasks[t];
            if EndsInError(s, pc, ok) then s'.runtimes == s.runtimes && s'.lru == s.lru
            else Entered(s, s', pc.name)
  {
    EndsHow(s, t, ok, l);
    if !EndsInError(s, s.tasks[t], ok) {
      EnterEnters(s, s.tasks[t].name, Leave(Enter(s, s.tasks[t].name), t));
    }
  }

  /** A section that does not end its call changes the map and the deque in two cases only: a demotion leaves its
      victim warm and the deque alone, and a drop leaves its victim in neither. */
  lemma SectionChanges(s: State, t: TaskId, ok: bool, l: Limits)
    requires t in s.tasks && t in TaskStep(s, t, ok, l).tasks
    ensures var s', pc := TaskStep(s, t, ok, l), s.tasks[t];
            match pc
            case HotDemote(_, _, v) =>
              s'.lru == s.lru && v in s'.runtimes && s'.runtimes[v] == Warm && OthersKept(s, s', v)
            case WarmDrop(_, _, v) => v !in s'.runtimes && v !in s'.lru && OthersKept(s, s', v)
            case _ => s'.runtimes == s.runtimes && s'.lru == s.lru
  {
  }

  /** The deque position of the first name in the given tier, other than `exclude`, if there is one. */
  ghost predicate FirstIn(s: State, tier: Tier, exclude: Option<Name>, v: Name) {
    exists i | 0 <= i < |s.lru| ::
      && s.lru[i] == v && Eligible(s, tier, exclude, v)
      && forall j | 0 <= j < i :: !Eligible(s, tier, exclude, s.lru[j])
  }

  predicate Eligible(s: State, tier: Tier, exclude: Option<Name>, v: Name) {
    Some(v) != exclude && v in s.runtimes && s.runtimes[v] == tier
  }

  lemma {:induction false} OldestIsFirst(s: State, tier: Tier, exclude: Option<Name>, i: nat)
    requires i <= |s.lru| && forall j | 0 <= j < i :: !Eligible(s, tier, exclude, s.lru[j])
    ensures match Oldest(s.lru[i..], s.runtimes, tier, exclude)
            case None => forall v | v in s.lru :: !Eligible(s, tier, exclude, v)
            case Some(v) => FirstIn(s, tier, exclude, v)
    decreases |s.lru| - i
  {
    if i < |s.lru| {
      assert s.lru[i..][0] == s.lru[i] && s.lru[i..][1..] == s.lru[i + 1..];
      if !Eligible(s, tier, exclude, s.lru[i]) {
        OldestIsFirst(s, tier, exclude, i + 1);
      }
    }
  }

  /** The demotion loop ends exactly when fewer templates than the limit are hot or none but the one asked for is;
      otherwise it picks the oldest other hot one. */
  lemma HotScanDecides(s: State, t: TaskId, ok: bool, l: Limits)
    requires t in s.tasks && s.tasks[t].HotScan?
    ensures var n, cold, pc' := s.tasks[t].name, s.tasks[t].cold, TaskStep(s, t, ok, l).tasks[t];
            && (pc' == Insert(n, cold) <==>
                  |InTier(s.runtimes, Hot)| < l.hotLimit || forall v | v in s.lru :: !Eligible(s, Hot, Some(n), v))
            && (pc' != Insert(n, cold) ==>
                  pc'.HotFetch? && pc'.name == n && pc'.cold == cold && FirstIn(s, Hot, Some(n), pc'.victim))
  {
    assert s.lru[0..] == s.lru;
    OldestIsFirst(s, Hot, Some(s.tasks[t].name), 0);
  }

  /** The trimming loop ends exactly when the warm tier is within its limit or no warm template is in the deque;
      otherwise it picks the oldest warm one. */
  lemma WarmScanDecides(s: State, t: TaskId, ok: bool, l: Limits)
    requires t in s.tasks && s.tasks[t].WarmScan?
    ensures var n, cold, pc' := s.tasks[t].name, s.tasks[t].cold, TaskStep(s, t, ok, l).tasks[t];
            && (pc' == HotScan(n, cold) <==>
                  |InTier(s.runtimes, Warm)| <= l.warmLimit || forall v | v in s.lru :: !Eligible(s, Warm, None, v))
            && (pc' != HotScan(n, cold) ==>
                  pc'.WarmDrop? && pc'.name == n && pc'.cold == cold && FirstIn(s, Warm, None, pc'.victim))
  {
    assert s.lru[0..] == s.lru;
    OldestIsFirst(s, Warm, None, 0);
  }

  /** Which way a call takes: a cold start is made exactly when the re-check under the name lock did not find the
      template, and the lock is waited for whenever another call has it. */
  lemma CallPath(s: State, t: TaskId, ok: bool, l: Limits)
    requires t in s.tasks && t in TaskStep(s, t, ok, l).tasks
    ensures var s', pc := TaskStep(s, t, ok, l), s.tasks[t];
            var n, pc' := pc.name, s'.tasks[t];
            match pc
            case Fast(_) => (n in s.runtimes ==> s.runtimes[n] != Hot) && pc' == AwaitLock(n)
            case AwaitLock(_) =>
              if n in s.locks then s' == s else pc' == Recheck(n) && n in s'.locks && s'.locks[n] == t
            case Recheck(_) => if IsHot(s, n) then pc' == RefreshHot(n) else pc' == HotScan(n, n !in s.runtimes)
            case HotFetch(_, cold, v) =>
              pc' == if v in s.runtimes then HotDemote(n, cold, v) else HotScan(n, cold)
            case HotDemote(_, cold, _) => pc' == WarmScan(n, cold)
            case WarmDrop(_, cold, _) => pc' == WarmScan(n, cold)
            case _ => true
  {
  }

  /** A request that gets in starts at the fast path; one that is abandoned takes nothing along but its locks. */
  lemma ArrivesAndLeaves(s: State, t: TaskId, n: Name, l: Limits, slots: nat)
    ensures t !in s.tasks && |s.tasks| < slots ==> Step(s, Arrive(t, n), l, slots) == s.(tasks := s.tasks[t := Fast(n)])
    ensures t in s.tasks ==>
              var s' := Step(s, Drop(t), l, slots);
              && s'.runtimes == s.runtimes && s'.lru == s.lru && s'.tasks == s.tasks - {t}
              && (forall m :: m in s'.locks <==> m in s.locks && s.locks[m] != t)
              && (forall m | m in s'.locks :: s'.locks[m] == s.locks[m])
  {
  }

  /** Over any run: the call that returns a runtime leaves its name hot and the youngest, at any number of slots. */
  lemma ReturnedIsYoungest(run: seq<Action>, t: TaskId, ok: bool, l: Limits, slots: nat)
    requires var s := After(run, l, slots);
             t in s.tasks && t !in TaskStep(s, t, ok, l).tasks && !EndsInError(s, s.tasks[t], ok)
    ensures var n, s' := After(run, l, slots).tasks[t].name, After(run + [Advance(t, ok)], l, slots);
            && n in s'.runtimes && s'.runtimes[n] == Hot
            && |s'.lru| > 0 && s'.lru[|s'.lru| - 1] == n && NoDup(s'.lru)
  {
    var s := After(run, l, slots);
    InitAndLast(run, Advance(t, ok));
    SoundAlways(run + [Advance(t, ok)], l, slots);
    ReturnsHot(s, t, ok, l);
  }
}
