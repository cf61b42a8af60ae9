/** The paged registry of api-rust, run by one caller at a time: its map, its LRU deque, its eviction loops
    and the containers it drives. Every method is proved to make the move that RecencyPages prescribes and
    to keep every live container owned by exactly one resident template. */
module PagedRegistry {
  import opened Prelude
  import opened RecencyPages
  import opened RegistryRuns

  type Cid = nat

  datatype Tier = Hot | Warm
  datatype Status = Created | Running | Paused | Removed

  /** A container as the daemon sees it, with the template its label names. */
  datatype Container = Container(template: Name, status: Status)

  datatype Runtime = Runtime(containers: seq<Cid>)
  datatype Entry = Entry(rt: Runtime, tier: Tier)

  /** The steps of starting one replica, in order: the template's image, the network, the memory setting,
      creating and starting the container, inspecting it, its address, the HTTP client for the health probe,
      the probe within its deadline, and the warm-up. */
  datatype StartStep = Image | Network | Memory | Create | Start | Inspect | Address | Client | Probe | WarmUp

  /** The first step of a start that fails, if any does, for each replica. */
  type Failures = nat -> Option<StartStep>

  datatype Error = UnknownTemplate | StartFailed(replica: nat)

  /** Replica counts of 0 start one container. */
  function Replicas(configured: nat): nat {
    if configured == 0 then 1 else configured
  }

  ghost predicate AllStart(fails: Failures, count: nat) {
    forall i: nat | i < count :: fails(i) == None
  }

  function CountByTier(runtimes: map<Name, Entry>, tier: Tier): nat {
    |set n | n in runtimes && runtimes[n].tier == tier|
  }

  function TierStatus(t: Tier): Status {
    if t == Hot then Running else Paused
  }

  datatype Op = Pause | Unpause | Remove

  /** The daemon refuses a pause or unpause that does not apply, and the callers ignore the refusal. */
  function Effect(op: Op, s: Status): Status {
    match op
    case Pause => if s == Running then Paused else s
    case Unpause => if s == Paused then Running else s
    case Remove => Removed
  }

  function WithStatus(d: seq<Container>, cids: seq<Cid>, op: Op): (r: seq<Container>)
    ensures |r| == |d|
  {
    seq(|d|, i requires 0 <= i < |d| => if i in cids then d[i].(status := Effect(op, d[i].status)) else d[i])
  }

  /** The map and the LRU deque hold the same names: the warm ones, then the hot ones, oldest first. */
  ghost predicate Listed(runtimes: map<Name, Entry>, lru: seq<Name>, pages: Pages) {
    && WellFormed(pages)
    && lru == pages.warm + pages.hot
    && runtimes.Keys == Elems(lru)
    && (forall n | n in pages.warm :: n in runtimes && runtimes[n].tier == Warm)
    && (forall n | n in pages.hot :: n in runtimes && runtimes[n].tier == Hot)
  }

  lemma WarmWhenResident(runtimes: map<Name, Entry>, lru: seq<Name>, p: Pages, n: Name)
    requires Listed(runtimes, lru, p) && n !in p.hot
    ensures n in runtimes <==> n in p.warm
  {
    assert n in runtimes.Keys <==> n in lru;
  }

  lemma DropOldestWarm(runtimes: map<Name, Entry>, lru: seq<Name>, p: Pages)
    requires Listed(runtimes, lru, p) && p.warm != []
    ensures var n := p.warm[0];
            Listed(runtimes - {n}, Without(lru, n), Pages(p.warm[1..], p.hot, p.dead - {n}))
  {
    DropNames(p);
    assert forall m | m in p.warm[1..] :: m in p.warm;
  }

  lemma DemoteOldestHot(runtimes: map<Name, Entry>, lru: seq<Name>, p: Pages)
    requires Listed(runtimes, lru, p) && p.hot != []
    ensures var n := p.hot[0];
            Listed(runtimes[n := Entry(runtimes[n].rt, Warm)], lru, Pages(p.warm + [n], p.hot[1..], p.dead))
  {
    DemoteNames(p);
    assert forall m | m in p.hot[1..] :: m in p.hot;
  }

  lemma EnterKeeps(p: Pages, n: Name, dead: set<Name>) returns (q: Pages)
    requires WellFormed(p) && dead <= p.dead + {n}
    ensures q == Pages(Without(p.warm, n), Without(p.hot, n) + [n], dead) && WellFormed(q)
    ensures q.warm + q.hot == Without(p.warm + p.hot, n) + [n]
    ensures Elems(q.warm + q.hot) == Elems(p.warm + p.hot) + {n}
  {
    q := Pages(Without(p.warm, n), Without(p.hot, n) + [n], dead);
    MoveToBackParts(p.warm, p.hot, n);
  }

  lemma InsertHot(runtimes: map<Name, Entry>, lru: seq<Name>, p: Pages, n: Name, rt: Runtime, dead: set<Name>)
    requires Listed(runtimes, lru, p) && p.dead <= dead <= p.dead + {n}
    ensures Listed(runtimes[n := Entry(rt, Hot)], Without(lru, n) + [n],
                   Pages(Without(p.warm, n), Without(p.hot, n) + [n], dead))
  {
    var q := EnterKeeps(p, n, dead);
    var r := runtimes[n := Entry(rt, Hot)];
    assert r.Keys == runtimes.Keys + {n};
    HotAfterInsert(runtimes, p.hot, n, rt);
  }

  lemma HotAfterInsert(runtimes: map<Name, Entry>, hot: seq<Name>, n: Name, rt: Runtime)
    requires forall m | m in hot :: m in runtimes && runtimes[m].tier == Hot
    ensures var r := runtimes[n := Entry(rt, Hot)];
            forall m | m in Without(hot, n) + [n] :: m in r && r[m].tier == Hot
  {
  }

  lemma TouchKeeps(runtimes: map<Name, Entry>, lru: seq<Name>, p: Pages, n: Name)
    requires Listed(runtimes, lru, p) && n in runtimes && runtimes[n].tier == Hot
    ensures n in p.hot && Listed(runtimes, Without(lru, n) + [n], p.(hot := Without(p.hot, n) + [n]))
  {
    NoDupParts(p.warm, p.hot);
    assert n in runtimes.Keys && n in lru;
    InsertHot(runtimes, lru, p, n, runtimes[n].rt, p.dead);
    assert runtimes[n := Entry(runtimes[n].rt, Hot)] == runtimes;
  }

  ghost predicate SameLabels(d: seq<Container>, d': seq<Container>) {
    |d| <= |d'| && forall c | 0 <= c < |d| :: d'[c].template == d[c].template
  }

  lemma StillLabelled(d: seq<Container>, d': seq<Container>, cids: seq<Cid>, n: Name)
    requires SameLabels(d, d') && forall c | c in cids :: c < |d| && d[c].template == n
    ensures forall c | c in cids :: c < |d'| && d'[c].template == n
  {
  }

  lemma SameLabelsTwice(d0: seq<Container>, d1: seq<Container>, d2: seq<Container>)
    requires SameLabels(d0, d1) && SameLabels(d1, d2)
    ensures SameLabels(d0, d2)
  {
  }

  ghost predicate Owns(runtimes: map<Name, Entry>, n: Name, c: Cid) {
    n in runtimes && c in runtimes[n].rt.containers
  }

  /** The status of a resident's containers; `unpaused` is a warm template in the middle of a promotion. */
  ghost function StatusOf(runtimes: map<Name, Entry>, dead: set<Name>, unpaused: Option<Name>, n: Name): Status
    requires n in runtimes
  {
    if n in dead then Removed
    else if unpaused == Some(n) then Running
    else TierStatus(runtimes[n].tier)
  }

  /** Container conservation. Every resident has containers of its own, all in the status its tier calls
      for, and every container that is not removed is owned by the resident its label names or was
      leaked by a failed start: so each live container has exactly one owner. */
  ghost predicate Consistent(
    runtimes: map<Name, Entry>, docker: seq<Container>, dead: set<Name>, leaked: set<Cid>, unpaused: Option<Name>)
  {
    && (forall n | n in runtimes :: runtimes[n].rt.containers != [] && NoDup(runtimes[n].rt.containers))
    && (forall n: Name, c: Cid | Owns(runtimes, n, c) ::
          c < |docker| && docker[c] == Container(n, StatusOf(runtimes, dead, unpaused, n)) && c !in leaked)
    && (forall c: Cid | c in leaked :: c < |docker| && docker[c].status == Running)
    && (forall c: Cid | c < |docker| && docker[c].status != Removed && c !in leaked ::
          Owns(runtimes, docker[c].template, c))
  }

  lemma DropResident(
    runtimes: map<Name, Entry>, docker: seq<Container>, dead: set<Name>, leaked: set<Cid>,
    unpaused: Option<Name>, n: Name)
    requires Consistent(runtimes, docker, dead, leaked, unpaused) && n in runtimes
    ensures Consistent(runtimes - {n}, WithStatus(docker, runtimes[n].rt.containers, Remove),
                       dead - {n}, leaked, unpaused)
  {
    var r, d := runtimes - {n}, WithStatus(docker, runtimes[n].rt.containers, Remove);
    forall m: Name, c: Cid | Owns(r, m, c)
      ensures c < |d| && d[c] == Container(m, StatusOf(r, dead - {n}, unpaused, m)) && c !in leaked
    {
      assert Owns(runtimes, m, c);
      assert !Owns(runtimes, n, c);
    }
    forall c: Cid | c in leaked ensures c < |d| && d[c].status == Running {
      assert !Owns(runtimes, n, c);
    }
    forall c: Cid | c < |d| && d[c].status != Removed && c !in leaked ensures Owns(r, d[c].template, c) {
      assert Owns(runtimes, docker[c].template, c);
    }
  }

  lemma Retier(
    runtimes: map<Name, Entry>, docker: seq<Container>, dead: set<Name>, leaked: set<Cid>,
    unpaused: Option<Name>, unpaused': Option<Name>, n: Name, tier: Tier, op: Op)
    requires Consistent(runtimes, docker, dead, leaked, unpaused) && n in runtimes
    requires forall m | m in runtimes && m != n :: unpaused == Some(m) <==> unpaused' == Some(m)
    requires var r := runtimes[n := Entry(runtimes[n].rt, tier)];
             Effect(op, StatusOf(runtimes, dead, unpaused, n)) == StatusOf(r, dead, unpaused', n)
    ensures Consistent(runtimes[n := Entry(runtimes[n].rt, tier)],
                       WithStatus(docker, runtimes[n].rt.containers, op), dead, leaked, unpaused')
  {
    var r, d := runtimes[n := Entry(runtimes[n].rt, tier)], WithStatus(docker, runtimes[n].rt.containers, op);
    forall m: Name, c: Cid | Owns(r, m, c)
      ensures c < |d| && d[c] == Container(m, StatusOf(r, dead, unpaused', m)) && c !in leaked
    {
      assert Owns(runtimes, m, c);
      assert m != n ==> !Owns(runtimes, n, c);
    }
    forall c: Cid | c in leaked ensures c < |d| && d[c].status == Running {
      assert !Owns(runtimes, n, c);
    }
    forall c: Cid | c < |d| && d[c].status != Removed && c !in leaked ensures Owns(r, d[c].template, c) {
      if Owns(runtimes, n, c) {
        assert Owns(r, n, c);
      } else {
        assert Owns(runtimes, docker[c].template, c);
      }
    }
  }

  // ---- Containers of a cold start ----

  /** `i` running containers of a template. */
  ghost function Runs(template: Name, i: nat): (r: seq<Container>)
    ensures |r| == i
  {
    if i == 0 then [] else Runs(template, i - 1) + [Container(template, Running)]
  }

  /** The `i` ids from `first` on. */
  ghost function CidsFrom(first: Cid, i: nat): (r: seq<Cid>)
    ensures |r| == i
  {
    if i == 0 then [] else CidsFrom(first, i - 1) + [first + i - 1]
  }

  lemma {:induction false} RunsRun(template: Name, i: nat, k: nat)
    requires k < i
    ensures Runs(template, i)[k] == Container(template, Running)
  {
    if k < i - 1 {
      RunsRun(template, i - 1, k);
    }
  }

  lemma {:induction false} CidsInRange(first: Cid, i: nat)
    ensures NoDup(CidsFrom(first, i)) && forall c: Cid :: c in CidsFrom(first, i) <==> first <= c < first + i
  {
    if i > 0 {
      CidsInRange(first, i - 1);
      var before: seq<Cid>, last: Cid := CidsFrom(first, i - 1), first + i - 1;
      assert CidsFrom(first, i) == before + [last] && [last][1..] == [] && last !in before;
      NoDupParts(before, [last]);
      assert forall c: Cid :: c in before + [last] <==> c in before || c == last;
    }
  }

  /** From `d` to `d'` exactly the containers `cids` were added, and they run. */
  ghost predicate Launched(d: seq<Container>, d': seq<Container>, template: Name, cids: seq<Cid>) {
    && d <= d' && NoDup(cids)
    && (forall c: Cid | c in cids :: |d| <= c < |d'| && d'[c] == Container(template, Running))
    && (forall c: Cid | |d| <= c < |d'| :: c in cids)
  }

  lemma RunsAppended(d: seq<Container>, template: Name, count: nat, c: Cid)
    requires |d| <= c < |d| + count
    ensures (d + Runs(template, count))[c] == Container(template, Running)
  {
    RunsRun(template, count, c - |d|);
  }

  lemma LaunchedAll(d: seq<Container>, d': seq<Container>, template: Name, count: nat)
    requires d' == d + Runs(template, count)
    ensures Launched(d, d', template, CidsFrom(|d|, count))
  {
    CidsInRange(|d|, count);
    forall c: Cid | |d| <= c < |d| + count ensures d'[c] == Container(template, Running) {
      RunsAppended(d, template, count, c);
    }
    LaunchedRange(d, d', template, count, CidsFrom(|d|, count));
  }

  lemma LaunchedRange(d: seq<Container>, d': seq<Container>, template: Name, count: nat, cids: seq<Cid>)
    requires d <= d' && |d'| == |d| + count && NoDup(cids)
    requires forall c: Cid :: c in cids <==> |d| <= c < |d| + count
    requires forall c: Cid | |d| <= c < |d| + count :: d'[c] == Container(template, Running)
    ensures Launched(d, d', template, cids)
  {
  }

  /** From `d` to `d'` every container added is removed again, but for one that leaked if `leaks`. */
  ghost predicate Swept(d: seq<Container>, d': seq<Container>, lost: set<Cid>, lost': set<Cid>, leaks: bool) {
    && d <= d'
    && (leaks ==> |d| < |d'| && lost' == lost + {|d'| - 1} && d'[|d'| - 1].status == Running)
    && (!leaks ==> lost' == lost)
    && (forall c: Cid | |d| <= c < |d'| && !(leaks && c == |d'| - 1) :: d'[c].status == Removed)
  }

  lemma RemovedUpTo(d: seq<Container>, before: seq<Container>, i: nat)
    requires d <= before && |d| + i <= |before|
    ensures var d' := WithStatus(before, CidsFrom(|d|, i), Remove);
            && d <= d' && (forall c | |d| + i <= c < |before| :: d'[c] == before[c])
            && (forall c | |d| <= c < |d| + i :: d'[c].status == Removed)
  {
    CidsInRange(|d|, i);
  }

  /** The cleanup after replica `i` failed, from the state `before` it. */
  lemma SweptAfter(d: seq<Container>, before: seq<Container>, i: nat, lost: set<Cid>, leaks: bool)
    requires d <= before && |d| + i <= |before| <= |d| + i + 1 && (leaks ==> |before| == |d| + i + 1)
    requires |before| > |d| + i ==> before[|d| + i].status == if leaks then Running else Removed
    ensures Swept(d, WithStatus(before, CidsFrom(|d|, i), Remove),
                  lost, if leaks then lost + {|d| + i} else lost, leaks)
  {
    RemovedUpTo(d, before, i);
  }

  /** A cold-started template: its containers are the newest ones and all of them run. */
  lemma AdmitStarted(
    runtimes: map<Name, Entry>, docker: seq<Container>, docker': seq<Container>, dead: set<Name>, leaked: set<Cid>,
    n: Name, cids: seq<Cid>)
    requires Consistent(runtimes, docker, dead, leaked, None) && n !in runtimes && n !in dead
    requires cids != [] && Launched(docker, docker', n, cids)
    ensures Consistent(runtimes[n := Entry(Runtime(cids), Hot)], docker', dead, leaked, None)
  {
    var r := runtimes[n := Entry(Runtime(cids), Hot)];
    forall m: Name, c: Cid | Owns(r, m, c)
      ensures c < |docker'| && docker'[c] == Container(m, StatusOf(r, dead, None, m)) && c !in leaked
    {
      assert m != n ==> Owns(runtimes, m, c);
    }
    forall c: Cid | c < |docker'| && docker'[c].status != Removed && c !in leaked
      ensures Owns(r, docker'[c].template, c)
    {
      if c < |docker| {
        assert Owns(runtimes, docker[c].template, c);
      } else {
        assert Owns(r, n, c);
      }
    }
  }

  /** Containers of a failed start: all removed again, except possibly one that was leaked. */
  lemma AbsorbFailedStart(
    runtimes: map<Name, Entry>, docker: seq<Container>, docker': seq<Container>, dead: set<Name>,
    leaked: set<Cid>, leaked': set<Cid>, leaks: bool)
    requires Consistent(runtimes, docker, dead, leaked, None) && Swept(docker, docker', leaked, leaked', leaks)
    ensures Consistent(runtimes, docker', dead, leaked', None)
    ensures |leaked' - leaked| == if leaks then 1 else 0
  {
    if leaks {
      assert |docker'| - 1 !in leaked;
      assert leaked' - leaked == {|docker'| - 1};
    }
    forall c: Cid | c in leaked' ensures c < |docker'| && docker'[c].status == Running {
      assert c in leaked || c == |docker'| - 1;
    }
    forall n: Name, c: Cid | Owns(runtimes, n, c)
      ensures c < |docker'| && docker'[c] == Container(n, StatusOf(runtimes, dead, None, n)) && c !in leaked'
    {
      assert c < |docker| && c !in leaked;
    }
  }

  /** What leaked is exactly what lives without an owner. */
  lemma LeakedIsUnowned(
    runtimes: map<Name, Entry>, docker: seq<Container>, dead: set<Name>, leaked: set<Cid>,
    unpaused: Option<Name>, c: Cid)
    requires Consistent(runtimes, docker, dead, leaked, unpaused)
    ensures c in leaked <==> c < |docker| && docker[c].status != Removed && forall n :: !Owns(runtimes, n, c)
  {
    if c < |docker| && docker[c].status != Removed && c !in leaked {
      assert Owns(runtimes, docker[c].template, c);
    }
  }

  /** A template dropped while it was being promoted comes back with its removed containers. */
  lemma AdmitRemoved(
    runtimes: map<Name, Entry>, docker: seq<Container>, dead: set<Name>, leaked: set<Cid>, n: Name, rt: Runtime)
    requires Consistent(runtimes, docker, dead, leaked, Some(n)) && n !in runtimes
    requires rt.containers != [] && NoDup(rt.containers)
    requires forall c: Cid | c in rt.containers :: c < |docker| && docker[c].template == n && c !in leaked
    ensures Consistent(runtimes[n := Entry(rt, Hot)], docker, dead + {n}, leaked, None)
  {
    var r := runtimes[n := Entry(rt, Hot)];
    forall c: Cid | c in rt.containers ensures docker[c] == Container(n, Removed) {
      assert !Owns(runtimes, n, c);
    }
    forall m: Name, c: Cid | Owns(r, m, c)
      ensures c < |docker| && docker[c] == Container(m, StatusOf(r, dead + {n}, None, m)) && c !in leaked
    {
      assert m != n ==> Owns(runtimes, m, c);
    }
    forall c: Cid | c < |docker| && docker[c].status != Removed && c !in leaked ensures Owns(r, docker[c].template, c) {
      assert Owns(runtimes, docker[c].template, c);
    }
  }

  /** A template still resident when its promotion ends. */
  lemma FinishPromotion(
    runtimes: map<Name, Entry>, docker: seq<Container>, dead: set<Name>, leaked: set<Cid>, n: Name)
    requires Consistent(runtimes, docker, dead, leaked, Some(n)) && n in runtimes
    ensures Consistent(runtimes[n := Entry(runtimes[n].rt, Hot)], docker, dead, leaked, None)
  {
    Retier(runtimes, docker, dead, leaked, Some(n), None, n, Hot, Unpause);
    assert forall c: Cid | Owns(runtimes, n, c) :: docker[c].status != Paused;
    assert WithStatus(docker, runtimes[n].rt.containers, Unpause) == docker;
  }

  lemma PromotedPages(p: Pages, q: Pages, n: Name, cap: nat, warmLimit: nat)
    requires 1 <= cap && q == MakeRoom(p, cap, warmLimit) && n in p.warm && n !in p.hot
    ensures Acquired(p, n, cap, warmLimit)
         == Pages(Without(q.warm, n), q.hot + [n], if n in q.warm then q.dead else q.dead + {n})
  {
  }

  class PagedRegistry {
    const configs: map<Name, nat>
    const hotLimit: nat
    const warmLimit: nat
    var runtimes: map<Name, Entry>
    var lru: seq<Name>
    var docker: seq<Container>

    /** The specification's view, kept up to date by every method. */
    ghost var pages: Pages
    /** Containers that a failed start left running with no owner. */
    ghost var leaked: set<Cid>

    ghost predicate NamesMatch()
      reads this
    {
      Listed(runtimes, lru, pages)
    }

    ghost predicate ContainersMatch(unpaused: Option<Name>)
      reads this
    {
      Consistent(runtimes, docker, pages.dead, leaked, unpaused)
    }

    ghost predicate Valid()
      reads this
    {
      NamesMatch() && ContainersMatch(None)
    }

    constructor (configs: map<Name, nat>, hotLimit: nat, warmLimit: nat)
      ensures Valid() && pages == Pages([], [], {}) && leaked == {} && docker == []
      ensures this.configs == configs && this.hotLimit == hotLimit && this.warmLimit == warmLimit
    {
      this.configs, this.hotLimit, this.warmLimit := configs, hotLimit, warmLimit;
      runtimes, lru, docker := map[], [], [];
      pages, leaked := Pages([], [], {}), {};
    }

    lemma TierCounts()
      requires NamesMatch()
      ensures CountByTier(runtimes, Hot) == |pages.hot|
      ensures CountByTier(runtimes, Warm) == |pages.warm|
    {
      NoDupParts(pages.warm, pages.hot);
      NoDupSize(pages.warm);
      NoDupSize(pages.hot);
      assert (set n | n in runtimes && runtimes[n].tier == Hot) == Elems(pages.hot);
      assert (set n | n in runtimes && runtimes[n].tier == Warm) == Elems(pages.warm);
    }

    /** Move `n` to the young end of the LRU order. */
    method TouchLru(n: Name)
      requires NoDup(lru)
      modifies this`lru
      ensures lru == Without(old(lru), n) + [n]
    {
      var pos := 0;
      while pos < |lru| && lru[pos] != n
        invariant 0 <= pos <= |lru|
        invariant n !in lru[..pos]
      {
        pos := pos + 1;
      }
      assert lru == lru[..pos] + lru[pos..];
      WithoutConcat(lru[..pos], lru[pos..], n);
      if pos < |lru| {
        NoDupParts(lru[..pos + 1], lru[pos + 1..]);
        assert lru == lru[..pos + 1] + lru[pos + 1..];
        assert n == lru[..pos + 1][pos];
        assert n !in lru[pos + 1..];
        lru := lru[..pos] + lru[pos + 1..];
      }
      lru := lru + [n];
    }

    predicate Candidate(n: Name, tier: Tier, exclude: Option<Name>)
      reads this`runtimes
    {
      Some(n) != exclude && n in runtimes && runtimes[n].tier == tier
    }

    /** The oldest name of the given tier, other than `exclude`. */
    method OldestOf(tier: Tier, exclude: Option<Name>) returns (victim: Option<Name>)
      ensures victim == None ==> forall n | n in lru :: !Candidate(n, tier, exclude)
      ensures victim.Some? ==>
                exists i | 0 <= i < |lru| :: lru[i] == victim.value && Candidate(lru[i], tier, exclude)
                  && forall j | 0 <= j < i :: !Candidate(lru[j], tier, exclude)
    {
      for i := 0 to |lru|
        invariant forall j | 0 <= j < i :: !Candidate(lru[j], tier, exclude)
      {
        if Candidate(lru[i], tier, exclude) {
          return Some(lru[i]);
        }
      }
      return None;
    }

    /** One daemon call per container, in order. */
    method ForEachContainer(cids: seq<Cid>, op: Op)
      requires NoDup(cids) && forall c | c in cids :: c < |docker|
      modifies this`docker
      ensures docker == WithStatus(old(docker), cids, op)
    {
      for i := 0 to |cids|
        invariant docker == WithStatus(old(docker), cids[..i], op)
      {
        NoDupAt(cids, i);
        assert cids[i] in cids;
        assert cids[..i + 1] == cids[..i] + [cids[i]];
        docker := docker[cids[i] := docker[cids[i]].(status := Effect(op, docker[cids[i]].status))];
      }
      assert cids[..|cids|] == cids;
    }

    /** The same for all containers of one resident. */
    method ForEachOwned(name: Name, op: Op, ghost unpaused: Option<Name>)
      requires ContainersMatch(unpaused) && name in runtimes
      modifies this`docker
      ensures docker == WithStatus(old(docker), runtimes[name].rt.containers, op)
      ensures SameLabels(old(docker), docker) && |docker| == |old(docker)|
    {
      assert forall c: Cid | c in runtimes[name].rt.containers :: Owns(runtimes, name, c);
      ForEachContainer(runtimes[name].rt.containers, op);
    }

    /** Remove the oldest warm templates beyond the limit, containers and all. */
    method EvictWarmToCold(ghost unpaused: Option<Name>)
      requires NamesMatch() && ContainersMatch(unpaused)
      modifies this`runtimes, this`lru, this`docker, this`pages
      ensures NamesMatch() && ContainersMatch(unpaused)
      ensures pages == TrimWarm(old(pages), warmLimit)
      ensures forall n | n in runtimes :: n in old(runtimes) && runtimes[n] == old(runtimes)[n]
      ensures SameLabels(old(docker), docker) && |docker| == |old(docker)|
    {
      while true
        invariant NamesMatch() && ContainersMatch(unpaused)
        invariant TrimWarm(pages, warmLimit) == TrimWarm(old(pages), warmLimit)
        invariant forall n | n in runtimes :: n in old(runtimes) && runtimes[n] == old(runtimes)[n]
        invariant SameLabels(old(docker), docker) && |docker| == |old(docker)|
        decreases |pages.warm|
      {
        TierCounts();
        if CountByTier(runtimes, Warm) <= warmLimit {
          break;
        }
        var victim := OldestWarm();
        TrimOne(pages, warmLimit);
        DropToCold(victim.value, unpaused);
      }
      assert pages.warm[..0] == [];
    }

    method OldestWarm() returns (victim: Option<Name>)
      requires NamesMatch() && pages.warm != []
      ensures victim == Some(pages.warm[0])
    {
      assert lru[0] == pages.warm[0] && lru[0] in lru;
      victim := OldestOf(Warm, None);
      assert Candidate(lru[0], Warm, None);
    }

    method DropToCold(name: Name, ghost unpaused: Option<Name>)
      requires NamesMatch() && ContainersMatch(unpaused)
      requires pages.warm != [] && name == pages.warm[0]
      modifies this`runtimes, this`lru, this`docker, this`pages
      ensures NamesMatch() && ContainersMatch(unpaused)
      ensures pages == Pages(old(pages).warm[1..], old(pages).hot, old(pages).dead - {name})
      ensures runtimes == old(runtimes) - {name}
      ensures SameLabels(old(docker), docker) && |docker| == |old(docker)|
    {
      var rt := runtimes[name].rt;
      DropOldestWarm(runtimes, lru, pages);
      DropResident(runtimes, docker, pages.dead, leaked, unpaused, name);
      assert forall c | c in rt.containers :: Owns(runtimes, name, c);
      lru := Without(lru, name);
      runtimes := runtimes - {name};
      pages := Pages(pages.warm[1..], pages.hot, pages.dead - {name});
      ghost var d := docker;
      ForEachContainer(rt.containers, Remove);
      assert docker == WithStatus(d, rt.containers, Remove);
      assert leaked == old(leaked);
      assert runtimes == old(runtimes) - {name};
      assert pages.dead == old(pages).dead - {name};
      assert Consistent(runtimes, docker, pages.dead, leaked, unpaused);
    }

    /** Pause a hot template's containers and mark it warm. */
    method Demote(name: Name, ghost unpaused: Option<Name>)
      requires NamesMatch() && ContainersMatch(unpaused)
      requires pages.hot != [] && name == pages.hot[0] && unpaused != Some(name)
      modifies this`runtimes, this`docker, this`pages
      ensures NamesMatch() && ContainersMatch(unpaused)
      ensures pages == Pages(old(pages).warm + [name], old(pages).hot[1..], old(pages).dead)
      ensures runtimes == old(runtimes)[name := Entry(old(runtimes)[name].rt, Warm)]
      ensures SameLabels(old(docker), docker) && |docker| == |old(docker)|
    {
      var rt := runtimes[name].rt;
      DemoteOldestHot(runtimes, lru, pages);
      Retier(runtimes, docker, pages.dead, leaked, unpaused, unpaused, name, Warm, Pause);
      ForEachOwned(name, Pause, unpaused);
      runtimes := runtimes[name := Entry(rt, Warm)];
      pages := Pages(pages.warm + [name], pages.hot[1..], pages.dead);
      assert Consistent(runtimes, docker, pages.dead, leaked, unpaused);
    }

    method DemoteAndTrim(name: Name, ghost unpaused: Option<Name>)
      requires NamesMatch() && ContainersMatch(unpaused)
      requires pages.hot != [] && name == pages.hot[0] && unpaused != Some(name)
      modifies this`runtimes, this`lru, this`docker, this`pages
      ensures NamesMatch() && ContainersMatch(unpaused)
      ensures pages == DemoteOne(old(pages), warmLimit)
      ensures forall n | n in runtimes :: n in old(runtimes) && runtimes[n].rt == old(runtimes)[n].rt
      ensures SameLabels(old(docker), docker) && |docker| == |old(docker)|
    {
      Demote(name, unpaused);
      EvictWarmToCold(unpaused);
    }

    /** Demote the oldest hot templates until there is a free hot slot, trimming the warm tier each time. */
    method EvictHotToWarm(exclude: Name, ghost unpaused: Option<Name>)
      requires NamesMatch() && ContainersMatch(unpaused)
      requires exclude !in pages.hot && (unpaused == None || unpaused == Some(exclude))
      modifies this`runtimes, this`lru, this`docker, this`pages
      ensures NamesMatch() && ContainersMatch(unpaused)
      ensures pages == MakeRoom(old(pages), HotCapacity(hotLimit), warmLimit)
      ensures exclude !in pages.hot
      ensures forall n | n in runtimes :: n in old(runtimes) && runtimes[n].rt == old(runtimes)[n].rt
      ensures SameLabels(old(docker), docker) && |docker| == |old(docker)|
    {
      var cap := HotCapacity(hotLimit);
      while true
        invariant NamesMatch() && ContainersMatch(unpaused)
        invariant MakeRoom(pages, cap, warmLimit) == MakeRoom(old(pages), cap, warmLimit)
        invariant exclude !in pages.hot
        invariant forall n | n in runtimes :: n in old(runtimes) && runtimes[n].rt == old(runtimes)[n].rt
        invariant SameLabels(old(docker), docker) && |docker| == |old(docker)|
        decreases |pages.hot|
      {
        TierCounts();
        if CountByTier(runtimes, Hot) < hotLimit {
          break;
        }
        var victim := OldestHotExcept(exclude);
        if victim == None {
          break;
        }
        DemoteOneTowardsRoom(pages, cap, warmLimit);
        DemoteAndTrim(victim.value, unpaused);
      }
    }

    /** The victim scan finds the oldest hot template, and comes up empty only when none is hot. */
    method OldestHotExcept(exclude: Name) returns (victim: Option<Name>)
      requires NamesMatch() && exclude !in pages.hot
      ensures victim == if pages.hot == [] then None else Some(pages.hot[0])
    {
      victim := OldestOf(Hot, Some(exclude));
      if pages.hot != [] {
        assert lru[|pages.warm|] == pages.hot[0] && pages.hot[0] in lru;
        ghost var i :| 0 <= i < |lru| && lru[i] == victim.value && Candidate(lru[i], Hot, Some(exclude))
          && forall j | 0 <= j < i :: !Candidate(lru[j], Hot, Some(exclude));
        assert i == |pages.warm|;
      } else {
        assert lru == pages.warm;
      }
    }

    method CreateContainer(template: Name) returns (cid: Cid)
      modifies this`docker
      ensures cid == |old(docker)| && docker == old(docker) + [Container(template, Created)]
    {
      cid := |docker|;
      docker := docker + [Container(template, Created)];
    }

    method SetStatus(cid: Cid, status: Status)
      requires cid < |docker|
      modifies this`docker
      ensures docker == old(docker)[cid := Container(old(docker)[cid].template, status)]
    {
      docker := docker[cid := docker[cid].(status := status)];
    }

    /** Start one replica, every exit with the cleanup it has. A container that runs although no id was
        returned is left exactly when building the HTTP client failed. */
    method StartContainer(template: Name, fails: Option<StartStep>) returns (cid: Option<Cid>)
      modifies this`docker, this`leaked
      ensures old(docker) <= docker && |docker| <= |old(docker)| + 1
      ensures |docker| == |old(docker)| <==> fails.Some? && fails.value in {Image, Network, Memory, Create}
      ensures cid == if fails == None then Some(|old(docker)|) else None
      ensures |docker| > |old(docker)| ==>
                docker[|old(docker)|] == Container(template, if fails in {None, Some(Client)} then Running else Removed)
      ensures leaked == if fails == Some(Client) then old(leaked) + {|old(docker)|} else old(leaked)
    {
      cid := None;
      if fails == Some(Image) || fails == Some(Network) || fails == Some(Memory) || fails == Some(Create) {
        return;
      }
      var id := CreateContainer(template);
      if fails == Some(Start) {
        SetStatus(id, Removed);
        return;
      }
      SetStatus(id, Running);
      match fails
      case Some(Inspect) =>
        SetStatus(id, Removed);
      case Some(Address) =>
        SetStatus(id, Removed);
      case Some(Client) =>
        leaked := leaked + {id};
      case Some(Probe) =>
        SetStatus(id, Removed);
      case Some(WarmUp) =>
        SetStatus(id, Removed);
      case None =>
        cid := Some(id);
    }

    /** Start all replicas; when replica i fails, remove the i already started. */
    method StartReplicas(template: Name, count: nat, fails: Failures) returns (r: Result<seq<Cid>, nat>)
      modifies this`docker, this`leaked
      ensures r.Ok? <==> AllStart(fails, count)
      ensures r.Ok? ==> leaked == old(leaked) && |r.value| == count && Launched(old(docker), docker, template, r.value)
      ensures r.Err? ==> r.error < count && fails(r.error) != None && AllStart(fails, r.error)
      ensures r.Err? ==> Swept(old(docker), docker, old(leaked), leaked, fails(r.error) == Some(Client))
    {
      var cids: seq<Cid> := [];
      ghost var d := docker;
      for i := 0 to count
        invariant docker == d + Runs(template, i) && cids == CidsFrom(|d|, i)
        invariant leaked == old(leaked)
        invariant AllStart(fails, i)
      {
        var cid := StartContainer(template, fails(i));
        if cid == None {
          CidsInRange(|d|, i);
          ghost var before := docker;
          ForEachContainer(cids, Remove);
          assert docker == WithStatus(before, cids, Remove);
          SweptAfter(d, before, i, old(leaked), fails(i) == Some(Client));
          return Err(i);
        }
        assert docker == (d + Runs(template, i)) + [Container(template, Running)];
        cids := cids + [cid.value];
      }
      LaunchedAll(d, docker, template, count);
      return Ok(cids);
    }

    ghost predicate AllRunning(rt: Runtime)
      reads this
    {
      forall c | c in rt.containers :: c < |docker| && docker[c].status == Running
    }

    lemma RunningUnlessDead(n: Name)
      requires ContainersMatch(None) && n in runtimes && runtimes[n].tier == Hot
      ensures AllRunning(runtimes[n].rt) <==> n !in pages.dead
    {
      assert forall c: Cid | c in runtimes[n].rt.containers :: Owns(runtimes, n, c);
      assert runtimes[n].rt.containers[0] in runtimes[n].rt.containers;
    }

    /** What the tiers mean for the containers: those of a hot template run and those of a warm one are paused, but
        for the templates whose containers have been removed. */
    lemma TierMeansStatus(n: Name, c: Cid)
      requires Valid() && n in runtimes && c in runtimes[n].rt.containers
      ensures n in pages.warm || n in pages.hot
      ensures c < |docker| && docker[c].template == n
      ensures docker[c].status == if n in pages.dead then Removed else if n in pages.hot then Running else Paused
    {
      assert Owns(runtimes, n, c);
      assert n in runtimes.Keys && n in lru;
    }

    /** The fast path: refresh the recency of a hot template. */
    method TouchHot(name: Name)
      requires NamesMatch() && name in runtimes && runtimes[name].tier == Hot
      modifies this`lru, this`pages
      ensures NamesMatch() && name in old(pages).hot
      ensures pages == old(pages).(hot := Without(old(pages).hot, name) + [name])
    {
      TouchKeeps(runtimes, lru, pages, name);
      TouchLru(name);
      pages := pages.(hot := Without(pages.hot, name) + [name]);
    }

    /** Unpause a warm template, make room, and enter it as hot. Nothing keeps the trimming of the warm
        tier away from the very template being promoted. */
    method Promote(name: Name)
      requires Valid() && name in runtimes && runtimes[name].tier == Warm
      modifies this`runtimes, this`lru, this`docker, this`pages
      ensures Valid()
      ensures name in old(pages).warm && name !in old(pages).hot
      ensures pages == Acquired(old(pages), name, HotCapacity(hotLimit), warmLimit)
      ensures name in runtimes && runtimes[name] == Entry(old(runtimes)[name].rt, Hot)
      ensures forall n | n in runtimes && n != name :: n in old(runtimes) && runtimes[n].rt == old(runtimes)[n].rt
      ensures SameLabels(old(docker), docker)
    {
      var rt := runtimes[name].rt;
      ghost var p := pages;
      UnpauseAndMakeRoom(name);
      PromotedPages(p, pages, name, HotCapacity(hotLimit), warmLimit);
      ReEnter(name, rt);
    }

    method UnpauseAndMakeRoom(name: Name)
      requires Valid() && name in runtimes && runtimes[name].tier == Warm
      modifies this`runtimes, this`lru, this`docker, this`pages
      ensures NamesMatch() && ContainersMatch(Some(name))
      ensures name in old(pages).warm && name !in old(pages).hot && name !in pages.hot
      ensures pages == MakeRoom(old(pages), HotCapacity(hotLimit), warmLimit)
      ensures forall n | n in runtimes :: n in old(runtimes) && runtimes[n].rt == old(runtimes)[n].rt
      ensures SameLabels(old(docker), docker)
      ensures forall c: Cid | c in old(runtimes)[name].rt.containers ::
                c < |docker| && docker[c].template == name && c !in leaked
    {
      ghost var cids := runtimes[name].rt.containers;
      ghost var d0 := docker;
      UnpauseWarm(name);
      ghost var d1 := docker;
      EvictHotToWarm(name, Some(name));
      SameLabelsTwice(d0, d1, docker);
      StillLabelled(d1, docker, cids, name);
    }

    /** The end of a promotion, whether the template is still resident or was trimmed meanwhile. */
    method ReEnter(name: Name, rt: Runtime)
      requires NamesMatch() && ContainersMatch(Some(name)) && name !in pages.hot
      requires rt.containers != [] && NoDup(rt.containers)
      requires name in runtimes ==> runtimes[name].rt == rt
      requires forall c: Cid | c in rt.containers :: c < |docker| && docker[c].template == name && c !in leaked
      modifies this`runtimes, this`lru, this`pages
      ensures Valid()
      ensures runtimes == old(runtimes)[name := Entry(rt, Hot)]
      ensures pages == Pages(Without(old(pages).warm, name), old(pages).hot + [name],
                             if name in old(pages).warm then old(pages).dead else old(pages).dead + {name})
    {
      ghost var dead := if name in pages.warm then pages.dead else pages.dead + {name};
      WarmWhenResident(runtimes, lru, pages, name);
      if name in runtimes {
        FinishPromotion(runtimes, docker, pages.dead, leaked, name);
      } else {
        assert forall c: Cid :: !Owns(runtimes, name, c);
        AdmitRemoved(runtimes, docker, pages.dead, leaked, name, rt);
      }
      EnterHot(name, rt, dead);
      assert Consistent(runtimes, docker, pages.dead, leaked, None);
    }

    method UnpauseWarm(name: Name)
      requires Valid() && name in runtimes && runtimes[name].tier == Warm
      modifies this`docker
      ensures name in pages.warm && name !in pages.hot
      ensures NamesMatch() && ContainersMatch(Some(name))
      ensures SameLabels(old(docker), docker)
      ensures forall c: Cid | c in runtimes[name].rt.containers ::
                c < |docker| && docker[c].template == name && c !in leaked
    {
      var cids := runtimes[name].rt.containers;
      assert forall c: Cid | c in cids :: Owns(runtimes, name, c);
      Retier(runtimes, docker, pages.dead, leaked, None, Some(name), name, Warm, Unpause);
      assert runtimes[name := Entry(runtimes[name].rt, Warm)] == runtimes;
      ForEachContainer(cids, Unpause);
      assert Consistent(runtimes, docker, pages.dead, leaked, Some(name));
    }

    /** Insert `name` as hot and move it to the young end. */
    method EnterHot(name: Name, rt: Runtime, ghost dead: set<Name>)
      requires NamesMatch() && name !in pages.hot
      requires pages.dead <= dead <= pages.dead + {name}
      modifies this`runtimes, this`lru, this`pages
      ensures NamesMatch()
      ensures runtimes == old(runtimes)[name := Entry(rt, Hot)]
      ensures pages == Pages(Without(old(pages).warm, name), old(pages).hot + [name], dead)
    {
      InsertHot(runtimes, lru, pages, name, rt, dead);
      runtimes := runtimes[name := Entry(rt, Hot)];
      pages := Pages(Without(pages.warm, name), pages.hot + [name], dead);
      TouchLru(name);
      assert Listed(runtimes, lru, pages);
    }

    lemma ReplicaCounts(count: nat, fails: Failures)
      ensures 1 <= count ==> Replicas(count) == count
      ensures Replicas(0) == 1 && (AllStart(fails, 1) <==> fails(0) == None)
    {
    }

    ghost function ColdOutcome(name: Name, fails: Failures): Cold {
      if name !in configs then Unknown
      else if AllStart(fails, Replicas(configs[name])) then Starts
      else Fails
    }

    /** Start the replicas and enter them as hot, or leave the registry as it was. */
    method StartAndEnter(name: Name, count: nat, fails: Failures) returns (r: Result<Runtime, Error>)
      requires Valid() && name !in runtimes && 0 < count
      modifies this
      ensures Valid()
      ensures old(docker) <= docker
      ensures r.Ok? <==> AllStart(fails, count)
      ensures r.Ok? ==>
                && runtimes == old(runtimes)[name := Entry(r.value, Hot)] && leaked == old(leaked)
                && pages == Pages(Without(old(pages).warm, name), old(pages).hot + [name], old(pages).dead)
                && |r.value.containers| == count && (forall c | c in r.value.containers :: |old(docker)| <= c)
      ensures r.Err? ==>
                && r.error.StartFailed? && r.error.replica < count
                && fails(r.error.replica) != None && AllStart(fails, r.error.replica)
                && runtimes == old(runtimes) && pages == old(pages) && old(leaked) <= leaked
                && |leaked - old(leaked)| == (if fails(r.error.replica) == Some(Client) then 1 else 0)
    {
      ghost var d, lost := docker, leaked;
      var started := StartReplicas(name, count, fails);
      if started.Err? {
        AbsorbFailedStart(runtimes, d, docker, pages.dead, lost, leaked, fails(started.error) == Some(Client));
        return Err(StartFailed(started.error));
      }
      var rt := Runtime(started.value);
      AdmitStarted(runtimes, d, docker, pages.dead, leaked, name, started.value);
      EnterHot(name, rt, pages.dead);
      assert Consistent(runtimes, docker, pages.dead, leaked, None);
      return Ok(rt);
    }

    /** Make room, start the replicas, and enter them as hot; room made for a failed start stays made. */
    method ColdStart(name: Name, count: nat, fails: Failures) returns (r: Result<Runtime, Error>)
      requires Valid() && name !in runtimes && 0 < count
      modifies this
      ensures Valid()
      ensures r.Ok? <==> AllStart(fails, count)
      ensures r.Ok? ==>
                && pages == Acquired(old(pages), name, HotCapacity(hotLimit), warmLimit)
                && name in runtimes && runtimes[name] == Entry(r.value, Hot) && name !in pages.dead
                && |r.value.containers| == count && (forall c | c in r.value.containers :: |old(docker)| <= c)
                && leaked == old(leaked)
      ensures r.Err? ==>
                && r.error.StartFailed? && r.error.replica < count
                && fails(r.error.replica) != None && AllStart(fails, r.error.replica)
                && pages == MakeRoom(old(pages), HotCapacity(hotLimit), warmLimit)
                && old(leaked) <= leaked
                && |leaked - old(leaked)| == (if fails(r.error.replica) == Some(Client) then 1 else 0)
      ensures forall n | n in runtimes && n != name :: n in old(runtimes) && runtimes[n].rt == old(runtimes)[n].rt
      ensures SameLabels(old(docker), docker)
    {
      EvictHotToWarm(name, None);
      r := StartAndEnter(name, count, fails);
    }

    /** Hand out the runtime of `name`, starting or unpausing it on demand and making room for it. */
    method Acquire(name: Name, fails: Failures) returns (r: Result<Runtime, Error>)
      requires Valid()
      modifies this
      ensures Valid()
      // which calls succeed
      ensures r.Ok? <==> Succeeds(old(pages), name, ColdOutcome(name, fails))
      ensures name in old(runtimes) ==> r.Ok?
      ensures r == Err(UnknownTemplate) <==> name !in old(runtimes) && name !in configs
      ensures r.Err? && r.error.StartFailed? ==>
                && r.error.replica < Replicas(configs[name])
                && fails(r.error.replica) != None && AllStart(fails, r.error.replica)
      // the recency lists
      ensures pages == AfterCall(old(pages), name, ColdOutcome(name, fails), HotCapacity(hotLimit), warmLimit)
      ensures r == Err(UnknownTemplate) ==> runtimes == old(runtimes) && docker == old(docker) && leaked == old(leaked)
      // container labels never change: what is no longer owned has been removed
      ensures SameLabels(old(docker), docker)
      // the runtime handed out
      ensures r.Ok? ==> name in runtimes && runtimes[name] == Entry(r.value, Hot)
      ensures r.Ok? && name in old(runtimes) ==> r.value == old(runtimes)[name].rt
      ensures r.Ok? && name !in old(runtimes) ==>
                && name !in pages.dead && NoDup(r.value.containers)
                && forall c | c in r.value.containers :: |old(docker)| <= c
      // a cold start in terms of the configured count: that many containers, but one for a count of 0, and it
      // succeeds exactly when each of them starts
      ensures name !in old(runtimes) && name in configs && 1 <= configs[name] ==>
                && (r.Ok? <==> AllStart(fails, configs[name]))
                && (r.Ok? ==> |r.value.containers| == configs[name])
      ensures name !in old(runtimes) && name in configs && configs[name] == 0 ==>
                && (r.Ok? <==> fails(0) == None)
                && (r.Ok? ==> |r.value.containers| == 1)
      ensures r.Ok? ==> (AllRunning(r.value) <==> name !in pages.dead)
      ensures r.Ok? && name !in old(runtimes) ==> AllRunning(r.value)
      // within the limits, the containers run exactly when they did not die before and are not trimmed now
      ensures WithinLimits(old(pages), Limits(hotLimit, warmLimit)) ==>
                && WithinLimits(pages, Limits(hotLimit, warmLimit))
                && (r.Ok? ==>
                      (AllRunning(r.value) <==>
                       name !in old(pages).dead && !TrimsItself(old(pages), name, Limits(hotLimit, warmLimit))))
      // the other runtimes, and what was leaked
      ensures forall n | n in runtimes && n != name :: n in old(runtimes) && runtimes[n].rt == old(runtimes)[n].rt
      ensures r.Ok? ==> leaked == old(leaked)
      ensures r.Err? && r.error.StartFailed? ==>
                && old(leaked) <= leaked
                && |leaked - old(leaked)| == (if fails(r.error.replica) == Some(Client) then 1 else 0)
    {
      CallWithinLimits(pages, Call(name, ColdOutcome(name, fails)), Limits(hotLimit, warmLimit));
      if name in runtimes && runtimes[name].tier == Hot {
        var rt := runtimes[name].rt;
        TouchHot(name);
        assert Consistent(runtimes, docker, pages.dead, leaked, None);
        RunningUnlessDead(name);
        return Ok(rt);
      }
      if name in runtimes {
        var rt := runtimes[name].rt;
        Promote(name);
        RunningUnlessDead(name);
        return Ok(rt);
      }
      if name !in configs {
        return Err(UnknownTemplate);
      }
      ReplicaCounts(configs[name], fails);
      r := ColdStart(name, Replicas(configs[name]), fails);
      if r.Ok? {
        RunningUnlessDead(name);
      }
    }
  }

  /** One call is enough to leave a container running that nobody owns. */
  method ClientFailureLeaks() returns (registry: PagedRegistry)
    ensures fresh(registry) && registry.Valid() && registry.runtimes == map[]
    ensures exists c: Cid :: c < |registry.docker| && registry.docker[c].status == Running
                             && forall n :: !Owns(registry.runtimes, n, c)
  {
    registry := new PagedRegistry(map[0 := 1], 1, 1);
    var fails: Failures := _ => Some(Client);
    assert fails(0) == Some(Client);
    var r := registry.Acquire(0, fails);
    assert r.Err?;
    ghost var c :| c in registry.leaked;
    LeakedIsUnowned(registry.runtimes, registry.docker, registry.pages.dead, registry.leaked, None, c);
    assert registry.pages == Pages([], [], {});
  }
}
