/** What one call to the paged registry of api-rust does to its two tiers, in closed form: the
    specification that the registry's loops are proved to meet (PagedRegistry) and that whole runs are
    reasoned about with (RegistryRuns). */
module RecencyPages {
  import opened Prelude

  /** Template names; the registry only ever compares them. */
  type Name = nat

  /** Resident templates, oldest first. `dead` names those whose containers have been removed
      although the registry still hands them out. */
  datatype Pages = Pages(warm: seq<Name>, hot: seq<Name>, dead: set<Name>)

  datatype Limits = Limits(hotLimit: nat, warmLimit: nat)

  ghost predicate WellFormed(p: Pages) {
    NoDup(p.warm + p.hot) && p.dead <= Elems(p.warm + p.hot)
  }

  /** A hot limit of 0 behaves like 1: the template being acquired is inserted in any case. */
  function HotCapacity(hotLimit: nat): nat {
    if hotLimit == 0 then 1 else hotLimit
  }

  /** How many of the oldest hot templates must be demoted to free one hot slot. */
  function Demotions(p: Pages, cap: nat): (d: nat)
    requires 1 <= cap
    ensures d <= |p.hot|
  {
    if |p.hot| < cap then 0 else |p.hot| - cap + 1
  }

  /** Drop the oldest warm templates until at most `warmLimit` are left. */
  function TrimWarm(p: Pages, warmLimit: nat): Pages {
    var kept := LastN(p.warm, warmLimit);
    Pages(kept, p.hot, p.dead - Elems(p.warm[..|p.warm| - |kept|]))
  }

  /** Free one hot slot: move the oldest hot templates behind the warm ones and trim. */
  function MakeRoom(p: Pages, cap: nat, warmLimit: nat): Pages
    requires 1 <= cap
  {
    var d := Demotions(p, cap);
    if d == 0 then p
    else TrimWarm(Pages(p.warm + p.hot[..d], p.hot[d..], p.dead), warmLimit)
  }

  /** A successful call that asks for `n`. */
  function Acquired(p: Pages, n: Name, cap: nat, warmLimit: nat): Pages
    requires 1 <= cap
  {
    if n in p.hot then p.(hot := Without(p.hot, n) + [n])
    else
      var q := MakeRoom(p, cap, warmLimit);
      Pages(Without(q.warm, n), q.hot + [n], if n in p.warm && n !in q.warm then q.dead + {n} else q.dead)
  }

  /** How a cold start of the template would go; `Unknown` when there is no such template. */
  datatype Cold = Starts | Fails | Unknown

  predicate Succeeds(p: Pages, n: Name, cold: Cold) {
    n in p.warm + p.hot || cold == Starts
  }

  /** Any call. A cold start that fails has already made room; an unknown template changes nothing. */
  function AfterCall(p: Pages, n: Name, cold: Cold, cap: nat, warmLimit: nat): Pages
    requires 1 <= cap
  {
    if Succeeds(p, n, cold) then Acquired(p, n, cap, warmLimit)
    else if cold == Fails then MakeRoom(p, cap, warmLimit)
    else p
  }

  lemma MoveToBackParts(warm: seq<Name>, hot: seq<Name>, n: Name)
    requires NoDup(warm + hot)
    ensures Without(warm + hot, n) + [n] == Without(warm, n) + (Without(hot, n) + [n])
    ensures NoDup(Without(warm + hot, n) + [n])
    ensures Elems(Without(warm + hot, n) + [n]) == Elems(warm + hot) + {n}
  {
    WithoutConcat(warm, hot, n);
    WithoutNoDup(warm + hot, n);
    NoDupParts(Without(warm + hot, n), [n]);
  }

  /** Trimming drops a prefix of the warm list. */
  lemma TrimWarmKeeps(p: Pages, warmLimit: nat) returns (dropped: seq<Name>)
    requires WellFormed(p)
    ensures var q := TrimWarm(p, warmLimit);
            && WellFormed(q) && q.hot == p.hot && |q.warm| <= warmLimit
            && p.warm == dropped + q.warm && p.warm + p.hot == dropped + (q.warm + q.hot)
  {
    var q := TrimWarm(p, warmLimit);
    dropped := p.warm[..|p.warm| - |q.warm|];
    assert p.warm + p.hot == dropped + (q.warm + p.hot);
    NoDupParts(dropped, q.warm + p.hot);
    forall x | x in q.dead ensures x in q.warm + p.hot {
      assert x in dropped + (q.warm + p.hot);
    }
  }

  /** Dropping the oldest warm template of an overfull list is a first step of trimming it. */
  lemma TrimOne(p: Pages, warmLimit: nat)
    requires WellFormed(p) && warmLimit < |p.warm|
    ensures var q := Pages(p.warm[1..], p.hot, p.dead - {p.warm[0]});
            WellFormed(q) && TrimWarm(q, warmLimit) == TrimWarm(p, warmLimit)
  {
    var q := Pages(p.warm[1..], p.hot, p.dead - {p.warm[0]});
    var k := |p.warm| - warmLimit;
    assert p.warm[..k] == [p.warm[0]] + p.warm[1..][..k - 1];
    assert [p.warm[0]] + (q.warm + p.hot) == p.warm + p.hot;
    NoDupParts([p.warm[0]], q.warm + p.hot);
    forall x | x in q.dead ensures x in q.warm + p.hot {
      assert x in [p.warm[0]] + (q.warm + p.hot);
    }
  }

  /** Demoting the oldest hot template moves the border between the tiers and no name. */
  lemma DemoteNames(p: Pages)
    requires WellFormed(p) && p.hot != []
    ensures var q := Pages(p.warm + [p.hot[0]], p.hot[1..], p.dead);
            && WellFormed(q) && q.warm + q.hot == p.warm + p.hot
            && p.hot[0] !in p.warm && p.hot[0] !in q.hot
  {
    var q := Pages(p.warm + [p.hot[0]], p.hot[1..], p.dead);
    assert q.warm + q.hot == p.warm + p.hot;
    NoDupParts(q.warm, q.hot);
    NoDupParts(p.warm, [p.hot[0]]);
    assert p.hot[0] in q.warm && p.hot[0] in [p.hot[0]];
  }

  /** Dropping the oldest warm template removes its name and no other. */
  lemma DropNames(p: Pages)
    requires WellFormed(p) && p.warm != []
    ensures var q := Pages(p.warm[1..], p.hot, p.dead - {p.warm[0]});
            && WellFormed(q) && Without(p.warm + p.hot, p.warm[0]) == q.warm + q.hot
            && Elems(q.warm + q.hot) == Elems(p.warm + p.hot) - {p.warm[0]}
            && p.warm[0] !in q.warm && p.warm[0] !in q.hot
  {
    var v, rest := p.warm[0], p.warm[1..] + p.hot;
    TrimOne(p, |p.warm| - 1);
    assert p.warm + p.hot == [v] + rest;
    NoDupParts([v], rest);
    WithoutConcat([v], rest, v);
    assert v in [v] && v !in rest;
    FrontLeaves(v, rest);
  }

  lemma FrontLeaves(v: Name, rest: seq<Name>)
    requires v !in rest
    ensures Without([v] + rest, v) == rest && Elems([v] + rest) - {v} == Elems(rest)
    ensures forall x | x in rest :: x in [v] + rest
  {
    assert ([v] + rest)[1..] == rest;
    assert Elems([v] + rest) == {v} + Elems(rest);
  }

  /** One turn of the demotion loop: demote the oldest hot template, then trim. */
  function DemoteOne(p: Pages, warmLimit: nat): Pages
    requires p.hot != []
  {
    TrimWarm(Pages(p.warm + [p.hot[0]], p.hot[1..], p.dead), warmLimit)
  }

  /** Trimming after every demotion comes to the same as trimming once at the end. */
  lemma DemoteOneTowardsRoom(p: Pages, cap: nat, warmLimit: nat)
    requires 1 <= cap <= |p.hot|
    ensures MakeRoom(DemoteOne(p, warmLimit), cap, warmLimit) == MakeRoom(p, cap, warmLimit)
  {
    var x, rest := p.hot[0], p.hot[1..];
    var d := Demotions(p, cap);
    var more := rest[..d - 1];
    assert p.hot[..d] == [x] + more && p.hot[d..] == rest[d - 1..];
    assert p.warm + p.hot[..d] == (p.warm + [x]) + more;
    if d == 1 {
      assert p.warm + [x] + more == p.warm + [x];
    } else {
      TrimWarmTwice(p.warm + [x], rest, more, rest[d - 1..], p.dead, warmLimit);
    }
  }

  lemma TrimWarmTwice(a: seq<Name>, hot: seq<Name>, b: seq<Name>, hot': seq<Name>, dead: set<Name>, warmLimit: nat)
    ensures var q := TrimWarm(Pages(a, hot, dead), warmLimit);
            TrimWarm(Pages(q.warm + b, hot', q.dead), warmLimit) == TrimWarm(Pages(a + b, hot', dead), warmLimit)
  {
    TrimTwice(a, b, warmLimit);
    var a', all' := LastN(a, warmLimit), LastN(a, warmLimit) + b;
    var lost, lost' := a[..|a| - |a'|], all'[..|all'| - |LastN(all', warmLimit)|];
    assert Elems(lost + lost') == Elems(lost) + Elems(lost');
    assert dead - Elems(lost) - Elems(lost') == dead - Elems(lost + lost');
  }

  /** Keeping the last `k` of `a`, appending `b`, and keeping the last `k` again loses what keeping the
      last `k` of `a + b` loses. */
  lemma TrimTwice(a: seq<Name>, b: seq<Name>, k: nat)
    ensures LastN(LastN(a, k) + b, k) == LastN(a + b, k)
    ensures var all' := LastN(a, k) + b;
            (a + b)[..|a + b| - |LastN(a + b, k)|] == a[..|a| - |LastN(a, k)|] + all'[..|all'| - |LastN(all', k)|]
  {
    LastNTwice(a, b, k);
    var drop, drop' := |a| - |LastN(a, k)|, |LastN(a, k) + b| - |LastN(LastN(a, k) + b, k)|;
    assert LastN(a, k) + b == (a + b)[drop..];
    assert a[..drop] == (a + b)[..drop];
    PrefixThenMore(a + b, drop, drop');
  }
}
