/** Whole runs of the registry under one caller at a time: what survives any sequence of calls. */
module RegistryRuns {
  import opened Prelude
  import opened RecencyPages

  datatype Call = Call(name: Name, cold: Cold)

  function Step(p: Pages, c: Call, l: Limits): Pages {
    AfterCall(p, c.name, c.cold, HotCapacity(l.hotLimit), l.warmLimit)
  }

  /** The pages after a run that starts with nothing resident. */
  function After(calls: seq<Call>, l: Limits): Pages {
    if calls == [] then Pages([], [], {})
    else Step(After(calls[..|calls| - 1], l), calls[|calls| - 1], l)
  }

  /** The names asked for by the calls that succeed, in order. */
  function Served(calls: seq<Call>, l: Limits): seq<Name> {
    if calls == [] then []
    else
      var before, last := calls[..|calls| - 1], calls[|calls| - 1];
      Served(before, l) + if Succeeds(After(before, l), last.name, last.cold) then [last.name] else []
  }

  /** The plain move-to-back list: every name ever served, least recently served first. */
  function MoveToBack(names: seq<Name>): seq<Name> {
    if names == [] then []
    else Without(MoveToBack(names[..|names| - 1]), names[|names| - 1]) + [names[|names| - 1]]
  }

  ghost predicate WithinLimits(p: Pages, l: Limits) {
    WellFormed(p) && |p.hot| <= HotCapacity(l.hotLimit) && |p.warm| <= l.warmLimit
  }

  /** The tiers are the tail of `recency`; `older` is the rest of it. */
  ghost predicate TailOf(p: Pages, older: seq<Name>, recency: seq<Name>) {
    NoDup(recency) && recency == older + (p.warm + p.hot)
  }

  lemma ResidentsDistinct(p: Pages, older: seq<Name>, recency: seq<Name>)
    requires TailOf(p, older, recency)
    ensures NoDup(p.warm) && NoDup(p.hot)
    ensures forall x | x in older :: x !in p.warm && x !in p.hot
    ensures forall x | x in p.warm :: x !in p.hot
  {
    NoDupParts(older, p.warm + p.hot);
    NoDupParts(p.warm, p.hot);
    assert forall x | x in p.warm || x in p.hot :: x in p.warm + p.hot;
  }

  /** Making room drops the oldest residents, keeping limits and order. */
  lemma RoomDropsOldest(p: Pages, l: Limits) returns (dropped: seq<Name>)
    requires WithinLimits(p, l)
    ensures var q := MakeRoom(p, HotCapacity(l.hotLimit), l.warmLimit);
            && WithinLimits(q, l) && p.warm + p.hot == dropped + (q.warm + q.hot)
            && |q.hot| == Min(|p.hot|, HotCapacity(l.hotLimit) - 1)
            && (forall n | n in q.hot :: n in p.hot) && p.hot == p.hot[..|p.hot| - |q.hot|] + q.hot
  {
    dropped := [];
    if |p.hot| == HotCapacity(l.hotLimit) {
      RoomIsOneDemotion(p, l);
      dropped := DemotionDropsOldest(p, l.warmLimit);
    }
  }

  lemma DemotionDropsOldest(p: Pages, warmLimit: nat) returns (dropped: seq<Name>)
    requires WellFormed(p) && p.hot != []
    ensures var q := DemoteOne(p, warmLimit);
            && WellFormed(q) && |q.warm| <= warmLimit && q.hot == p.hot[1..]
            && p.warm + p.hot == dropped + (q.warm + q.hot)
  {
    DemoteNames(p);
    dropped := TrimWarmKeeps(Pages(p.warm + [p.hot[0]], p.hot[1..], p.dead), warmLimit);
  }

  lemma RoomIsOneDemotion(p: Pages, l: Limits)
    requires |p.hot| == HotCapacity(l.hotLimit)
    ensures MakeRoom(p, HotCapacity(l.hotLimit), l.warmLimit) == DemoteOne(p, l.warmLimit)
  {
    assert p.hot[..1] == [p.hot[0]];
  }

  lemma HitKeepsTail(p: Pages, older: seq<Name>, recency: seq<Name>, n: Name)
    requires WellFormed(p) && TailOf(p, older, recency) && n in p.hot
    ensures var q := p.(hot := Without(p.hot, n) + [n]);
            WellFormed(q) && |q.hot| == |p.hot| && TailOf(q, older, Without(recency, n) + [n])
  {
    ResidentsDistinct(p, older, recency);
    MoveToBackParts(older, p.warm + p.hot, n);
    MoveToBackParts(p.warm, p.hot, n);
    WithoutNoDup(p.hot, n);
  }

  lemma MissKeepsTail(q: Pages, older: seq<Name>, recency: seq<Name>, n: Name, dead: set<Name>)
    requires WellFormed(q) && TailOf(q, older, recency) && n !in q.hot && dead <= q.dead + {n}
    ensures var r := Pages(Without(q.warm, n), q.hot + [n], dead);
            WellFormed(r) && TailOf(r, Without(older, n), Without(recency, n) + [n])
  {
    MoveToBackParts(older, q.warm + q.hot, n);
    MoveToBackParts(q.warm, q.hot, n);
  }

  /** One call keeps the limits and keeps the tiers the tail of the recency list. */
  lemma StepRefines(p: Pages, older: seq<Name>, recency: seq<Name>, c: Call, l: Limits) returns (older': seq<Name>)
    requires WithinLimits(p, l) && TailOf(p, older, recency)
    ensures WithinLimits(Step(p, c, l), l)
    ensures TailOf(Step(p, c, l), older',
                   if Succeeds(p, c.name, c.cold) then Without(recency, c.name) + [c.name] else recency)
  {
    var n := c.name;
    ResidentsDistinct(p, older, recency);
    if n in p.hot {
      HitKeepsTail(p, older, recency, n);
      older' := older;
    } else if !Succeeds(p, n, c.cold) && c.cold == Unknown {
      older' := older;
    } else {
      var dropped := RoomDropsOldest(p, l);
      var q := MakeRoom(p, HotCapacity(l.hotLimit), l.warmLimit);
      older' := older + dropped;
      assert recency == older' + (q.warm + q.hot);
      if Succeeds(p, n, c.cold) {
        MissKeepsTail(q, older', recency, n, Step(p, c, l).dead);
        older' := Without(older', n);
      }
    }
  }

  /** Over every run, failed starts included: both tiers stay within their limits, and the LRU deque
      (warm names, then hot names) is the tail of the move-to-back list of the names served. */
  lemma {:induction false} RunRefinesRecencyList(calls: seq<Call>, l: Limits) returns (older: seq<Name>)
    ensures WithinLimits(After(calls, l), l)
    ensures TailOf(After(calls, l), older, MoveToBack(Served(calls, l)))
  {
    if calls == [] {
      older := [];
    } else {
      var before, last := calls[..|calls| - 1], calls[|calls| - 1];
      assert calls == before + [last];
      var p, recency := After(before, l), MoveToBack(Served(before, l));
      older := RunRefinesRecencyList(before, l);
      older := StepRefines(p, older, recency, last, l);
      ServedGrows(before, last, l);
    }
  }

  lemma ServedGrows(before: seq<Call>, last: Call, l: Limits)
    ensures After(before + [last], l) == Step(After(before, l), last, l)
    ensures var ok := Succeeds(After(before, l), last.name, last.cold);
            var recency := MoveToBack(Served(before, l));
            MoveToBack(Served(before + [last], l)) == if ok then Without(recency, last.name) + [last.name] else recency
  {
    var calls := before + [last];
    assert calls[..|calls| - 1] == before;
    var names := Served(calls, l);
    if Succeeds(After(before, l), last.name, last.cold) {
      assert names[..|names| - 1] == Served(before, l);
    } else {
      assert names == Served(before, l);
    }
  }

  /** No cold start failed in the run. */
  ghost predicate NoFailedStart(calls: seq<Call>, l: Limits) {
    calls == [] ||
    var before, last := calls[..|calls| - 1], calls[|calls| - 1];
    NoFailedStart(before, l) && (Succeeds(After(before, l), last.name, last.cold) || last.cold == Unknown)
  }

  /** Without failed cold starts the hot tier is exactly the newest names, as many as fit. */
  lemma {:induction false} HotIsTheNewestNames(calls: seq<Call>, l: Limits)
    requires NoFailedStart(calls, l)
    ensures After(calls, l).hot == LastN(MoveToBack(Served(calls, l)), if l.hotLimit == 0 then 1 else l.hotLimit)
  {
    HotSize(calls, l);
    var older := RunRefinesRecencyList(calls, l);
    var p := After(calls, l);
    assert MoveToBack(Served(calls, l)) == (older + p.warm) + p.hot;
  }

  /** The hot tier stays full, or holds every name served so far. */
  lemma {:induction false} HotSize(calls: seq<Call>, l: Limits)
    requires NoFailedStart(calls, l)
    ensures |After(calls, l).hot| == Min(|MoveToBack(Served(calls, l))|, HotCapacity(l.hotLimit))
  {
    if calls != [] {
      var before, last := calls[..|calls| - 1], calls[|calls| - 1];
      assert calls == before + [last];
      var p, recency := After(before, l), MoveToBack(Served(before, l));
      HotSize(before, l);
      var older := RunRefinesRecencyList(before, l);
      ServedGrows(before, last, l);
      if Succeeds(p, last.name, last.cold) {
        StepHotSize(p, older, recency, last, l);
      }
    }
  }

  lemma StepHotSize(p: Pages, older: seq<Name>, recency: seq<Name>, c: Call, l: Limits)
    requires WithinLimits(p, l) && TailOf(p, older, recency)
    requires |p.hot| == Min(|recency|, HotCapacity(l.hotLimit))
    requires Succeeds(p, c.name, c.cold)
    ensures |Step(p, c, l).hot| == Min(|Without(recency, c.name) + [c.name]|, HotCapacity(l.hotLimit))
  {
    var n := c.name;
    WithoutNoDup(recency, n);
    ResidentsDistinct(p, older, recency);
    if n in p.hot {
      WithoutNoDup(p.hot, n);
      assert n in recency;
    } else {
      var dropped := RoomDropsOldest(p, l);
      if |p.hot| < HotCapacity(l.hotLimit) {
        assert older == [] && p.warm == [] && recency == p.hot;
      }
    }
  }

  /** The size of the hot tier after a call that is not a hit. */
  lemma StepMissSize(p: Pages, c: Call, l: Limits)
    requires WithinLimits(p, l) && c.name !in p.hot
    ensures var room := Min(|p.hot|, HotCapacity(l.hotLimit) - 1);
            |Step(p, c, l).hot| == if Succeeds(p, c.name, c.cold) then room + 1
                                   else if c.cold == Fails then room
                                   else |p.hot|
  {
    var _ := RoomDropsOldest(p, l);
  }

  lemma StepHitSize(p: Pages, c: Call, l: Limits)
    requires WithinLimits(p, l) && c.name in p.hot
    ensures |Step(p, c, l).hot| == |p.hot|
  {
    NoDupParts(p.warm, p.hot);
    WithoutNoDup(p.hot, c.name);
  }

  /** In every run, failed starts included, the hot tier is at most one slot short of the newest names that
      fit: a failed start frees a slot, and the next one that succeeds takes it. */
  lemma {:induction false} HotAtLeast(calls: seq<Call>, l: Limits)
    ensures |After(calls, l).hot| >= Min(|MoveToBack(Served(calls, l))|, HotCapacity(l.hotLimit) - 1)
  {
    if calls != [] {
      var before, last := calls[..|calls| - 1], calls[|calls| - 1];
      assert calls == before + [last];
      var p, recency := After(before, l), MoveToBack(Served(before, l));
      HotAtLeast(before, l);
      var older := RunRefinesRecencyList(before, l);
      ServedGrows(before, last, l);
      WithoutNoDup(recency, last.name);
      if last.name in p.hot {
        StepHitSize(p, last, l);
        assert last.name in recency;
      } else {
        StepMissSize(p, last, l);
      }
    }
  }

  /** Inclusion over two runs that serve the same names, whatever their warm limits and whatever calls fail in
      between: what is hot under the smaller hot limit is hot under the larger one. With equal limits it holds
      if no cold start fails in the second run. */
  lemma InclusionOverHotLimits(calls: seq<Call>, l: Limits, calls': seq<Call>, l': Limits)
    requires Served(calls, l) == Served(calls', l')
    requires var cap, cap' := HotCapacity(l.hotLimit), HotCapacity(l'.hotLimit);
             cap < cap' || (cap == cap' && NoFailedStart(calls', l'))
    ensures Elems(After(calls, l).hot) <= Elems(After(calls', l').hot)
  {
    var older := RunRefinesRecencyList(calls, l);
    var older' := RunRefinesRecencyList(calls', l');
    var p, p' := After(calls, l), After(calls', l');
    TailSize(p, older, MoveToBack(Served(calls, l)));
    HotAtLeast(calls', l');
    if NoFailedStart(calls', l') {
      HotSize(calls', l');
    }
    TailsInclude(MoveToBack(Served(calls, l)), p, older, p', older');
  }

  lemma TailSize(p: Pages, older: seq<Name>, recency: seq<Name>)
    requires TailOf(p, older, recency)
    ensures |p.hot| <= |recency|
  {
  }

  lemma TailsInclude(recency: seq<Name>, p: Pages, older: seq<Name>, p': Pages, older': seq<Name>)
    requires TailOf(p, older, recency) && TailOf(p', older', recency) && |p.hot| <= |p'.hot|
    ensures Elems(p.hot) <= Elems(p'.hot)
  {
    assert older + (p.warm + p.hot) == (older + p.warm) + p.hot;
    assert older' + (p'.warm + p'.hot) == (older' + p'.warm) + p'.hot;
    NestedTails(recency, older + p.warm, p.hot, older' + p'.warm, p'.hot);
  }

  lemma NestedTails(s: seq<Name>, front: seq<Name>, back: seq<Name>, front': seq<Name>, back': seq<Name>)
    requires s == front + back && s == front' + back' && |back| <= |back'|
    ensures Elems(back) <= Elems(back')
  {
    var k := |back'| - |back|;
    assert s[|front|..] == back && s[|front'|..] == back';
    assert back == back'[k..];
  }

  /** With equal limits a failed start can break it: it demotes the only hot template and leaves the slot free. */
  lemma FailedStartLeavesSlotFree()
    ensures var l, calls, calls' := Limits(1, 0), [Call(1, Starts)], [Call(1, Starts), Call(2, Fails)];
            && Served(calls, l) == Served(calls', l)
            && After(calls, l).hot == [1] && After(calls', l).hot == []
  {
    var l, one := Limits(1, 0), Call(1, Starts);
    assert [one][..0] == [] && [one, Call(2, Fails)][..1] == [one];
    assert After([one], l) == Pages([], [1], {});
    var p := Pages([], [1], {});
    assert p.hot[1..] == [];
    assert Served([one], l) == [1] && Served([one, Call(2, Fails)], l) == [1] + [];
  }

  /** Whether both tiers are full, so that admitting one more template costs one. */
  predicate Full(p: Pages, l: Limits) {
    |p.hot| >= 1 && |p.hot| >= l.hotLimit && |p.warm| >= l.warmLimit
  }

  /** Within the limits, a call drops a resident only if it is not a hit and both tiers are full, and then one, the
      oldest; no other name goes, and only the one asked for comes. */
  lemma DropsOneWhenFull(p: Pages, c: Call, l: Limits)
    requires WithinLimits(p, l)
    ensures var q, names := Step(p, c, l), Elems(p.warm + p.hot);
            Elems(q.warm + q.hot) ==
            if c.name in p.hot || (!Succeeds(p, c.name, c.cold) && c.cold == Unknown) then names
            else
              (if Full(p, l) then names - {(p.warm + p.hot)[0]} else names)
              + (if Succeeds(p, c.name, c.cold) then {c.name} else {})
  {
    var n := c.name;
    if n in p.hot {
      MoveToBackParts(p.warm, p.hot, n);
      HitNames(p, n);
    } else if Succeeds(p, n, c.cold) || c.cold == Fails {
      var q := MakeRoom(p, HotCapacity(l.hotLimit), l.warmLimit);
      RoomNames(p, l);
      MoveToBackParts(q.warm, q.hot, n);
    }
  }

  lemma HitNames(p: Pages, n: Name)
    requires WellFormed(p) && n in p.hot
    ensures Elems(p.warm + (Without(p.hot, n) + [n])) == Elems(p.warm + p.hot)
  {
    forall x ensures x in p.warm + (Without(p.hot, n) + [n]) <==> x in p.warm + p.hot {
    }
  }

  /** Making room drops one name or none. */
  lemma RoomNames(p: Pages, l: Limits)
    requires WithinLimits(p, l)
    ensures var q, names := MakeRoom(p, HotCapacity(l.hotLimit), l.warmLimit), Elems(p.warm + p.hot);
            && WithinLimits(q, l)
            && Elems(q.warm + q.hot) == if Full(p, l) then names - {(p.warm + p.hot)[0]} else names
  {
    var q := MakeRoom(p, HotCapacity(l.hotLimit), l.warmLimit);
    var dropped := RoomDropsOldest(p, l);
    if |p.hot| == HotCapacity(l.hotLimit) {
      RoomIsOneDemotion(p, l);
    }
    assert |dropped| == if Full(p, l) then 1 else 0;
    NamesWithout(dropped, q.warm + q.hot, p.warm + p.hot);
  }

  lemma NamesWithout(dropped: seq<Name>, rest: seq<Name>, all: seq<Name>)
    requires all == dropped + rest && NoDup(all) && |dropped| <= 1
    ensures Elems(rest) == if dropped == [] then Elems(all) else Elems(all) - {all[0]}
  {
    NoDupParts(dropped, rest);
    if dropped == [] {
      assert all == rest;
    } else {
      assert all == [all[0]] + rest && all[0] in dropped;
      FrontLeaves(all[0], rest);
    }
  }

  /** The promotion that trims away its own template: it was the oldest warm one and both tiers were full. */
  predicate TrimsItself(p: Pages, n: Name, l: Limits) {
    p.warm != [] && p.warm[0] == n && |p.hot| == HotCapacity(l.hotLimit) && |p.warm| == l.warmLimit
  }

  /** Within limits, a served call leaves `n` with removed containers exactly when it already had them or
      the promotion trims itself. */
  lemma DeadExactlyWhenTrimmed(p: Pages, n: Name, l: Limits)
    requires WithinLimits(p, l)
    ensures n in Acquired(p, n, HotCapacity(l.hotLimit), l.warmLimit).dead <==> n in p.dead || TrimsItself(p, n, l)
  {
    var cap := HotCapacity(l.hotLimit);
    NoDupParts(p.warm, p.hot);
    if n in p.warm && |p.hot| == cap {
      var x := p.hot[0];
      assert p.hot[..1] == [x] && p.warm + p.hot[..1] == p.warm + [x];
      WarmFront(p.warm, x, l.warmLimit);
      NoDupParts([p.warm[0]], p.warm[1..]);
      assert p.warm == [p.warm[0]] + p.warm[1..];
    }
  }

  /** Of a warm list within its limit plus one more, at most the front is trimmed. */
  lemma WarmFront(warm: seq<Name>, x: Name, limit: nat)
    requires 0 < |warm| <= limit
    ensures var all := warm + [x];
            var kept := LastN(all, limit);
            if |warm| < limit then kept == all && all[..|all| - |kept|] == []
            else kept == warm[1..] + [x] && all[..|all| - |kept|] == [warm[0]]
  {
  }

  /** What one call does to pages within the limits. */
  lemma CallWithinLimits(p: Pages, c: Call, l: Limits)
    ensures WithinLimits(p, l) ==> WithinLimits(Step(p, c, l), l)
    ensures WithinLimits(p, l) && Succeeds(p, c.name, c.cold) ==>
              (c.name in Step(p, c, l).dead <==> c.name in p.dead || TrimsItself(p, c.name, l))
  {
    if WithinLimits(p, l) {
      assert [] + (p.warm + p.hot) == p.warm + p.hot;
      var _ := StepRefines(p, [], p.warm + p.hot, c, l);
      DeadExactlyWhenTrimmed(p, c.name, l);
    }
  }

  /** The trap is real: one hot slot, one warm slot, and a caller alternating between two templates. */
  lemma AlternatingCallsTrimThemselves()
    ensures Acquired(Acquired(Acquired(Pages([], [], {}), 1, 1, 1), 2, 1, 1), 1, 1, 1) == Pages([2], [1], {1})
  {
    DemotesThenAdmits(1, 2, []);
    DemotesThenAdmits(2, 1, [1]);
    assert Acquired(Pages([], [], {}), 1, 1, 1) == Pages([], [1], {});
  }

  /** With one slot per tier, serving `n` demotes `m` and trims `warm`, even when `warm` is `n` itself. */
  lemma DemotesThenAdmits(m: Name, n: Name, warm: seq<Name>)
    requires m != n && (warm == [] || warm == [n])
    ensures Acquired(Pages(warm, [m], {}), n, 1, 1) == Pages([m], [n], if warm == [] then {} else {n})
  {
    var p := Pages(warm, [m], {});
    assert p.hot[..1] == [m] && p.hot[1..] == [];
    var all := warm + p.hot[..1];
    assert LastN(all, 1) == [m];
    assert MakeRoom(p, 1, 1).warm == [m];
    assert MakeRoom(p, 1, 1).dead == {};
  }
}
