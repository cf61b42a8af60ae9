/** The processes of one tools-rust session as a state machine.

    Tasks are requests in flight and the session's deletion; a task stops wherever another one may run, in
    particular between the two times a `wait`, `signal` or `stop` looks at a process's state. Children exit
    at any time. A run is any sequence of actions. */
module ProcessSession {
  import opened Prelude

  type Pid = nat
  type TaskId = nat

  datatype ProcessState = Running | Exited(code: int) | Terminated(signal: int)

  /** What waiting for the child yields. */
  datatype WaitResult = Status(code: Option<int>, signal: Option<int>) | WaitFailed

  /** The state the wait task records. */
  function FinalState(w: WaitResult): (s: ProcessState)
    ensures s != Running
  {
    match w
    case Status(Some(code), _) => Exited(code)
    case Status(None, Some(signal)) => Terminated(signal)
    case _ => Exited(-1)
  }

  /** `read` and `write` replies are `Brief`: they never carry a signal. `wait`, `signal`, `stop`: `Full`. */
  datatype Kind = Brief | Full

  datatype Reply = Reply(pid: Pid, kind: Kind, running: bool, code: Option<int>, signal: Option<int>)

  /** What is recorded of a run: a reply as issued, `began` events after the start of it when its request began, or
      that a process ended and what waiting for it yielded. */
  datatype Event = Said(reply: Reply, began: nat) | Ended(pid: Pid, w: WaitResult)

  datatype Pc =
    | Checking                                            // start: before the cap check
    | Spawning                                            // start: past the cap check
    | Spawned(pid: Pid)                                   // start: child exists, not tracked yet
    | First(pid: Pid, kind: Kind, began: nat)             // about to look at the state
    | Second(pid: Pid, began: nat)                        // saw neither running nor a code; about to look again
    | Holding(reply: Reply, began: nat)                   // reply formed, not issued yet
    | Snapshotting                                        // deletion: about to list the processes
    | Reaping(all: set<Pid>, done: set<Pid>, warned: Option<Pid>)

  /** `procs` holds every process ever spawned. `raced` and `reaped` record history: that a start was in
      flight when the deletion listed the processes, and that the deletion ran to its end. */
  datatype State = State(procs: map<Pid, ProcessState>, tracked: set<Pid>, tasks: map<TaskId, Pc>, log: seq<Event>,
                         killed: set<Pid>, deleted: bool, raced: bool, reaped: bool)

  const EMPTY := State(map[], {}, map[], [], {}, false, false, false)

  datatype Action =
    | BeginStart(t: TaskId)
    | BeginObserve(t: TaskId, pid: Pid, kind: Kind)
    | BeginDelete(t: TaskId)
    | Advance(t: TaskId, ok: bool, pid: Pid)              // `ok`: spawn succeeds, lock is free; `pid`: new or next id
    | Exit(pid: Pid, w: WaitResult)
    | Drop(t: TaskId)                                     // the request is abandoned or ends in an error reply

  predicate IsStart(pc: Pc) {
    pc.Checking? || pc.Spawning? || pc.Spawned?
  }

  predicate IsReaper(pc: Pc) {
    pc.Snapshotting? || pc.Reaping?
  }

  function Starting(s: State): set<TaskId> {
    set t | t in s.tasks && IsStart(s.tasks[t])
  }

  function Goto(s: State, t: TaskId, pc: Pc): State {
    s.(tasks := s.tasks[t := pc])
  }

  function Leave(s: State, t: TaskId): State {
    s.(tasks := s.tasks - {t})
  }

  /** What the first look makes of a state; `running` and the code, never the signal. */
  function Glance(pid: Pid, kind: Kind, p: ProcessState): Reply {
    match p
    case Running => Reply(pid, kind, true, None, None)
    case Exited(code) => Reply(pid, kind, false, Some(code), None)
    case Terminated(_) => Reply(pid, kind, false, None, None)
  }

  function TaskStep(s: State, t: TaskId, ok: bool, pid: Pid, cap: nat): State
    requires t in s.tasks
  {
    match s.tasks[t]
    case Checking => if |s.tracked| >= cap then Leave(s, t) else Goto(s, t, Spawning)
    case Spawning =>
      if !ok then Leave(s, t)
      else if pid in s.procs then s
      else Goto(s.(procs := s.procs[pid := Running]), t, Spawned(pid))
    case Spawned(p) => Leave(s.(tracked := s.tracked + {p}), t)
    case First(p, kind, began) =>
      if p !in s.procs then s
      else if kind == Full && s.procs[p].Terminated? then Goto(s, t, Second(p, began))
      else Goto(s, t, Holding(Glance(p, kind, s.procs[p]), began))
    case Second(p, began) =>
      var signal := if p in s.procs && s.procs[p].Terminated? then Some(s.procs[p].signal) else None;
      Goto(s, t, Holding(Reply(p, Full, false, None, signal), began))
    case Holding(reply, began) => Leave(s.(log := s.log + [Said(reply, began)]), t)
    case Snapshotting => Goto(s.(raced := Starting(s) != {}), t, Reaping(s.tracked, {}, None))
    case Reaping(all, done, warned) => ReaperStep(s, t, all, done, warned, ok, pid)
  }

  /** Warn a process, kill it if it is still running at the second look, go on to the next, and in the end
      forget them all. */
  function ReaperStep(
    s: State, t: TaskId, all: set<Pid>, done: set<Pid>, warned: Option<Pid>, ok: bool, pid: Pid): State
  {
    match warned
    case None =>
      if done == all then Leave(s.(tracked := {}, reaped := true), t)
      else if pid !in all - done then s
      else if SeenTerminal(s, pid, ok) then Goto(s, t, Reaping(all, done + {pid}, None))
      else Goto(s, t, Reaping(all, done, Some(pid)))
    case Some(p) =>
      Goto(if SeenTerminal(s, p, ok) then s else s.(killed := s.killed + {p}), t, Reaping(all, done + {p}, None))
  }

  /** The reaper only tries the lock; when it is taken the process counts as running. */
  predicate SeenTerminal(s: State, p: Pid, ok: bool) {
    ok && p in s.procs && s.procs[p] != Running
  }

  predicate Enabled(s: State, a: Action, starts: nat) {
    match a
    case BeginStart(t) => t !in s.tasks && !s.deleted && |Starting(s)| < starts
    case BeginObserve(t, pid, _) => t !in s.tasks && pid in s.tracked
    case BeginDelete(t) => t !in s.tasks && !s.deleted
    case Advance(t, _, _) => t in s.tasks
    case Exit(pid, _) => pid in s.procs && s.procs[pid] == Running
    case Drop(t) => t in s.tasks && !IsStart(s.tasks[t])
  }

  /** One action; an action that is not enabled does nothing. */
  function Step(s: State, a: Action, cap: nat, starts: nat): State {
    if !Enabled(s, a, starts) then s
    else match a
         case BeginStart(t) => Goto(s, t, Checking)
         case BeginObserve(t, pid, kind) => Goto(s, t, First(pid, kind, |s.log|))
         case BeginDelete(t) => Goto(s.(deleted := true), t, Snapshotting)
         case Advance(t, ok, pid) => TaskStep(s, t, ok, pid, cap)
         case Exit(pid, w) => s.(procs := s.procs[pid := FinalState(w)], log := s.log + [Ended(pid, w)])
         case Drop(t) => Leave(s, t)
  }

  function After(run: seq<Action>, cap: nat, starts: nat): State {
    if run == [] then EMPTY
    else Step(After(run[..|run| - 1], cap, starts), run[|run| - 1], cap, starts)
  }

  // ---- What callers see ----

  /** A reply that says "not running" tells the truth about the process. */
  predicate Matches(r: Reply, p: ProcessState) {
    match p
    case Running => false
    case Exited(code) => r.code == Some(code) && r.signal == None
    case Terminated(signal) => r.code == None && r.signal == if r.kind == Full then Some(signal) else None
  }

  predicate Truthful(r: Reply, procs: map<Pid, ProcessState>) {
    if r.running then r.code == None && r.signal == None
    else r.pid in procs && Matches(r, procs[r.pid])
  }

  /** The recorded state says what waiting for the child yielded. */
  predicate Recorded(p: ProcessState, w: WaitResult) {
    match w
    case Status(Some(code), _) => p == Exited(code)
    case Status(None, Some(signal)) => p == Terminated(signal)
    case _ => p == Exited(-1)
  }

  predicate TrueEvent(e: Event, procs: map<Pid, ProcessState>) {
    match e
    case Said(reply, _) => Truthful(reply, procs)
    case Ended(pid, w) => pid in procs && Recorded(procs[pid], w)
  }

  /** The event shows that the process has ended. */
  predicate ShowsEnd(e: Event, pid: Pid) {
    match e
    case Said(reply, _) => reply.pid == pid && !reply.running
    case Ended(p, _) => p == pid
  }

  /** A reply saying "running" comes with no contradiction among the first `began` events. */
  ghost predicate NotTooLate(r: Reply, began: nat, log: seq<Event>) {
    r.running ==> forall i | 0 <= i < began && i < |log| :: !ShowsEnd(log[i], r.pid)
  }

  ghost predicate Timely(log: seq<Event>, j: nat)
    requires j < |log|
  {
    log[j].Said? ==> NotTooLate(log[j].reply, log[j].began, log[..j]) && log[j].began <= j
  }

  ghost predicate Honest(s: State) {
    && s.tracked <= s.procs.Keys
    && (forall i | 0 <= i < |s.log| :: TrueEvent(s.log[i], s.procs))
    && (forall j | 0 <= j < |s.log| :: Timely(s.log, j))
    && (forall t | t in s.tasks :: HonestTask(s, s.tasks[t]))
  }

  ghost predicate HonestTask(s: State, pc: Pc) {
    match pc
    case Spawned(p) => p in s.procs
    case First(p, _, began) => p in s.procs && began <= |s.log|
    case Second(p, began) => p in s.procs && s.procs[p].Terminated? && began <= |s.log|
    case Holding(r, began) => Truthful(r, s.procs) && NotTooLate(r, began, s.log) && began <= |s.log|
    case _ => true
  }

  lemma HonestGoto(s: State, t: TaskId, pc: Pc)
    requires Honest(s) && HonestTask(s, pc)
    ensures Honest(Goto(s, t, pc))
  {
  }

  lemma HonestLeave(s: State, t: TaskId)
    requires Honest(s)
    ensures Honest(Leave(s, t))
  {
  }

  /** Processes may appear, and running ones may end; an outcome, once recorded, stays. */
  ghost predicate Grows(procs: map<Pid, ProcessState>, procs': map<Pid, ProcessState>) {
    forall p | p in procs :: p in procs' && (procs[p] != Running ==> procs'[p] == procs[p])
  }

  lemma HonestGrows(s: State, procs': map<Pid, ProcessState>)
    requires Honest(s) && Grows(s.procs, procs')
    ensures Honest(s.(procs := procs'))
  {
    var s' := s.(procs := procs');
    forall t | t in s'.tasks ensures HonestTask(s', s'.tasks[t]) {
      assert HonestTask(s, s.tasks[t]);
    }
    forall i | 0 <= i < |s'.log| ensures TrueEvent(s'.log[i], procs') {
      assert TrueEvent(s.log[i], s.procs);
    }
  }

  /** One more true event, timely if it is a reply. */
  lemma HonestRecord(s: State, e: Event)
    requires Honest(s) && TrueEvent(e, s.procs)
    requires e.Said? ==> NotTooLate(e.reply, e.began, s.log) && e.began <= |s.log|
    ensures Honest(s.(log := s.log + [e]))
  {
    var s' := s.(log := s.log + [e]);
    forall j: nat | j < |s'.log| ensures TrueEvent(s'.log[j], s.procs) && Timely(s'.log, j) {
      RecordTimely(s.log, e, j);
      if j < |s.log| {
        assert TrueEvent(s.log[j], s.procs) && Timely(s.log, j);
      }
    }
    forall t | t in s'.tasks ensures HonestTask(s', s'.tasks[t]) {
      assert HonestTask(s, s.tasks[t]);
    }
  }

  lemma RecordTimely(log: seq<Event>, e: Event, j: nat)
    requires j <= |log|
    ensures (log + [e])[..j] == log[..j] && log[..|log|] == log
    ensures j < |log| ==> (log + [e])[j] == log[j]
  {
  }

  lemma HonestIssue(s: State, r: Reply, began: nat)
    requires Honest(s) && HonestTask(s, Holding(r, began))
    ensures Honest(s.(log := s.log + [Said(r, began)]))
  {
    HonestRecord(s, Said(r, began));
  }

  lemma HonestExit(s: State, pid: Pid, w: WaitResult)
    requires Honest(s) && pid in s.procs && s.procs[pid] == Running
    ensures Honest(s.(procs := s.procs[pid := FinalState(w)], log := s.log + [Ended(pid, w)]))
  {
    HonestGrows(s, s.procs[pid := FinalState(w)]);
    HonestRecord(s.(procs := s.procs[pid := FinalState(w)]), Ended(pid, w));
  }

  /** What the first look sees is consistent with every reply issued before the request began. */
  lemma GlanceHonest(s: State, p: Pid, kind: Kind, began: nat)
    requires Honest(s) && p in s.procs && began <= |s.log|
    requires kind == Full ==> !s.procs[p].Terminated?
    ensures HonestTask(s, Holding(Glance(p, kind, s.procs[p]), began))
  {
    var r := Glance(p, kind, s.procs[p]);
    if r.running {
      forall i | 0 <= i < began && i < |s.log| ensures !ShowsEnd(s.log[i], p) {
        assert TrueEvent(s.log[i], s.procs);
      }
    }
  }

  lemma TaskStepHonest(s: State, t: TaskId, ok: bool, pid: Pid, cap: nat)
    requires Honest(s) && t in s.tasks
    ensures Honest(TaskStep(s, t, ok, pid, cap))
  {
    var pc := s.tasks[t];
    assert HonestTask(s, pc);
    HonestLeave(s, t);
    match pc
    case Checking => HonestGoto(s, t, Spawning);
    case Spawning =>
      if ok && pid !in s.procs {
        HonestGrows(s, s.procs[pid := Running]);
        HonestGoto(s.(procs := s.procs[pid := Running]), t, Spawned(pid));
      }
    case Spawned(p) =>
      assert Honest(s.(tracked := s.tracked + {p}));
      HonestLeave(s.(tracked := s.tracked + {p}), t);
    case First(p, kind, began) =>
      if kind == Full && s.procs[p].Terminated? {
        HonestGoto(s, t, Second(p, began));
      } else {
        GlanceHonest(s, p, kind, began);
        HonestGoto(s, t, Holding(Glance(p, kind, s.procs[p]), began));
      }
    case Second(p, began) =>
      HonestGoto(s, t, Holding(Reply(p, Full, false, None, Some(s.procs[p].signal)), began));
    case Holding(reply, began) =>
      HonestIssue(s, reply, began);
      HonestLeave(s.(log := s.log + [Said(reply, began)]), t);
    case Snapshotting =>
      var s1 := s.(raced := Starting(s) != {});
      assert Honest(s1);
      HonestGoto(s1, t, Reaping(s.tracked, {}, None));
    case Reaping(all, done, warned) => ReaperHonest(s, t, all, done, warned, ok, pid);
  }

  /** A reaper's step either forgets all processes and ends, or goes on, perhaps after a kill. */
  lemma ReaperForms(s: State, t: TaskId, all: set<Pid>, done: set<Pid>, warned: Option<Pid>, ok: bool, pid: Pid)
    returns (ends: bool, killed: set<Pid>, pc: Pc)
    requires t in s.tasks && s.tasks[t] == Reaping(all, done, warned)
    ensures var s' := ReaperStep(s, t, all, done, warned, ok, pid);
            if ends then done == all && s' == Leave(s.(tracked := {}, reaped := true), t)
            else pc.Reaping? && s' == Goto(s.(killed := killed), t, pc)
  {
    ends, killed, pc := warned == None && done == all, s.killed, s.tasks[t];
    if !ends {
      var s' := ReaperStep(s, t, all, done, warned, ok, pid);
      assert s.tasks[t := s.tasks[t]] == s.tasks;
      killed, pc := s'.killed, s'.tasks[t];
    }
  }

  lemma ReaperFrame(s: State, t: TaskId, all: set<Pid>, done: set<Pid>, warned: Option<Pid>, ok: bool, pid: Pid)
    requires t in s.tasks && s.tasks[t] == Reaping(all, done, warned)
    ensures var s' := ReaperStep(s, t, all, done, warned, ok, pid);
            && s'.procs == s.procs && s'.log == s.log && s'.tracked <= s.tracked
            && (!s'.reaped ==> s'.tracked == s.tracked)
            && (forall u | u in s'.tasks && u != t :: u in s.tasks && s'.tasks[u] == s.tasks[u])
            && (t in s'.tasks ==> s'.tasks[t].Reaping?)
  {
    var _, _, _ := ReaperForms(s, t, all, done, warned, ok, pid);
  }

  lemma ReaperHonest(s: State, t: TaskId, all: set<Pid>, done: set<Pid>, warned: Option<Pid>, ok: bool, pid: Pid)
    requires Honest(s) && t in s.tasks && s.tasks[t] == Reaping(all, done, warned)
    ensures Honest(ReaperStep(s, t, all, done, warned, ok, pid))
  {
    var s' := ReaperStep(s, t, all, done, warned, ok, pid);
    ReaperFrame(s, t, all, done, warned, ok, pid);
    forall u | u in s'.tasks ensures HonestTask(s', s'.tasks[u]) {
      if u != t {
        assert HonestTask(s, s.tasks[u]);
      }
    }
  }

  lemma {:induction false} AlwaysHonest(run: seq<Action>, cap: nat, starts: nat)
    ensures Honest(After(run, cap, starts))
  {
    if run != [] {
      var s, a := After(run[..|run| - 1], cap, starts), run[|run| - 1];
      AlwaysHonest(run[..|run| - 1], cap, starts);
      if Enabled(s, a, starts) {
        match a
        case BeginStart(t) => HonestGoto(s, t, Checking);
        case BeginObserve(t, pid, kind) => HonestGoto(s, t, First(pid, kind, |s.log|));
        case BeginDelete(t) =>
          assert Honest(s.(deleted := true));
          HonestGoto(s.(deleted := true), t, Snapshotting);
        case Advance(t, ok, pid) => TaskStepHonest(s, t, ok, pid, cap);
        case Exit(pid, w) => HonestExit(s, pid, w);
        case Drop(t) => HonestLeave(s, t);
      }
    }
  }

  /** Once a reply says that a process is not running, every reply to a request that began afterwards says
      so too, with the same exit code and, where both kinds carry one, the same signal. */
  lemma TerminalIsAbsorbing(run: seq<Action>, cap: nat, starts: nat, i: nat, j: nat)
    requires var log := After(run, cap, starts).log;
             && i < j < |log| && log[i].Said? && log[j].Said? && i < log[j].began
             && log[i].reply.pid == log[j].reply.pid && !log[i].reply.running
    ensures var log := After(run, cap, starts).log;
            && !log[j].reply.running
            && log[j].reply.code == log[i].reply.code
            && (log[j].reply.kind == log[i].reply.kind ==> log[j].reply.signal == log[i].reply.signal)
  {
    AlwaysHonest(run, cap, starts);
    var s := After(run, cap, starts);
    assert TrueEvent(s.log[i], s.procs) && TrueEvent(s.log[j], s.procs);
    assert Timely(s.log, j) && s.log[..j][i] == s.log[i];
  }

  /** The reply says of an ended process what waiting for it yielded: its exit code, if it has one; else, in a full
      reply, its signal; and an exit code of -1 if there is neither. */
  predicate Reports(r: Reply, w: WaitResult) {
    && !r.running
    && match w
       case Status(Some(code), _) => r.code == Some(code) && r.signal == None
       case Status(None, Some(signal)) => r.code == None && (r.kind == Full ==> r.signal == Some(signal))
       case _ => r.code == Some(-1) && r.signal == None
  }

  /** Once a process has ended, every reply to a request that began afterwards reports how, and so does every
      other reply that does not say "running". */
  lemma RepliesReportTheEnd(run: seq<Action>, cap: nat, starts: nat, i: nat, j: nat)
    requires var log := After(run, cap, starts).log;
             && i < |log| && j < |log| && log[i].Ended? && log[j].Said? && log[i].pid == log[j].reply.pid
             && (i < log[j].began || !log[j].reply.running)
    ensures var log := After(run, cap, starts).log; Reports(log[j].reply, log[i].w)
  {
    AlwaysHonest(run, cap, starts);
    var s := After(run, cap, starts);
    assert TrueEvent(s.log[i], s.procs) && TrueEvent(s.log[j], s.procs);
    if i < s.log[j].began {
      assert Timely(s.log, j) && s.log[..j][i] == s.log[i];
    }
  }

  /** The task is serving a request of this kind about this process. */
  predicate Serves(pc: Pc, pid: Pid, kind: Kind) {
    match pc
    case First(p, k, _) => p == pid && k == kind
    case Second(p, _) => p == pid && kind == Full
    case Holding(r, _) => r.pid == pid && r.kind == kind
    case _ => false
  }

  /** A request is answered, if at all, by one reply of its own kind about its own process. */
  lemma AnswersItsRequest(s: State, a: Action, cap: nat, starts: nat, t: TaskId, pid: Pid, kind: Kind)
    requires t in s.tasks && Serves(s.tasks[t], pid, kind)
    ensures var s' := Step(s, a, cap, starts);
            if t in s'.tasks then Serves(s'.tasks[t], pid, kind)
            else
              || s' == Leave(s, t)
              || exists r: Reply, began: nat ::
                   r.pid == pid && r.kind == kind && s' == Leave(s.(log := s.log + [Said(r, began)]), t)
  {
    if Enabled(s, a, starts) && a.Advance? && a.t == t && s.tasks[t].Holding? {
      var r, began := s.tasks[t].reply, s.tasks[t].began;
      assert Step(s, a, cap, starts) == Leave(s.(log := s.log + [Said(r, began)]), t);
    } else if Enabled(s, a, starts) && a.Advance? && a.t != t {
      OthersStay(s, a.t, a.ok, a.pid, cap, t);
    }
  }

  /** An exit is recorded for its process alone, with what waiting for it yielded. */
  lemma ExitIsRecorded(s: State, pid: Pid, w: WaitResult, cap: nat, starts: nat)
    requires pid in s.procs && s.procs[pid] == Running
    ensures var s' := Step(s, Exit(pid, w), cap, starts);
            && s'.log == s.log + [Ended(pid, w)] && pid in s'.procs && Recorded(s'.procs[pid], w)
            && (forall p | p != pid :: p in s'.procs <==> p in s.procs)
            && (forall p | p != pid && p in s.procs :: s'.procs[p] == s.procs[p])
            && s'.tasks == s.tasks && s'.tracked == s.tracked
  {
  }

  /** A request about a tracked process begins, at the end of the record so far. */
  lemma RequestBegins(s: State, t: TaskId, pid: Pid, kind: Kind, cap: nat, starts: nat)
    requires t !in s.tasks && pid in s.tracked
    ensures var s' := Step(s, BeginObserve(t, pid, kind), cap, starts);
            && t in s'.tasks && Serves(s'.tasks[t], pid, kind) && s'.tasks[t].First? && s'.tasks[t].began == |s.log|
  {
  }

  /** How many looks a request still has to make. */
  function Looks(pc: Pc): nat {
    if pc.First? then 2 else if pc.Second? then 1 else 0
  }

  /** In every run, each step of a request brings its reply nearer, and the last one issues it: nothing holds it up. */
  lemma EachLookAnswers(run: seq<Action>, t: TaskId, pid: Pid, kind: Kind, ok: bool, any: Pid, cap: nat, starts: nat)
    requires var s := After(run, cap, starts); t in s.tasks && Serves(s.tasks[t], pid, kind)
    ensures var s := After(run, cap, starts);
            var s' := TaskStep(s, t, ok, any, cap);
            if s.tasks[t].Holding? then t !in s'.tasks && |s'.log| == |s.log| + 1
            else t in s'.tasks && Serves(s'.tasks[t], pid, kind) && Looks(s'.tasks[t]) < Looks(s.tasks[t])
  {
    AlwaysHonest(run, cap, starts);
    var s := After(run, cap, starts);
    assert HonestTask(s, s.tasks[t]);
  }

  lemma OthersStay(s: State, t: TaskId, ok: bool, pid: Pid, cap: nat, u: TaskId)
    requires t in s.tasks && u in s.tasks && u != t
    ensures u in TaskStep(s, t, ok, pid, cap).tasks && TaskStep(s, t, ok, pid, cap).tasks[u] == s.tasks[u]
  {
    match s.tasks[t]
    case Reaping(all, done, warned) => var _, _, _ := ReaperForms(s, t, all, done, warned, ok, pid);
    case _ =>
  }

  function Count(b: bool): nat {
    if b then 1 else 0
  }

  /** A `wait`, `signal` or `stop` reply says exactly one thing, although it looks at the state twice. */
  lemma FullReplySaysOneThing(run: seq<Action>, cap: nat, starts: nat, i: nat)
    requires i < |After(run, cap, starts).log| && After(run, cap, starts).log[i].Said?
    requires After(run, cap, starts).log[i].reply.kind == Full
    ensures var r := After(run, cap, starts).log[i].reply;
            Count(r.running) + Count(r.code.Some?) + Count(r.signal.Some?) == 1
  {
    AlwaysHonest(run, cap, starts);
    var s := After(run, cap, starts);
    assert TrueEvent(s.log[i], s.procs);
  }

  // ---- The cap ----

  /** Starts past the cap check whose process is not tracked yet. */
  function Committed(s: State): set<TaskId> {
    set t | t in s.tasks && (s.tasks[t].Spawning? || s.tasks[t].Spawned?)
  }

  function CapBound(cap: nat, starts: nat): nat {
    if cap == 0 then 0 else cap - 1 + starts
  }

  ghost predicate Capped(s: State, cap: nat, starts: nat) {
    |s.tracked| + |Committed(s)| <= CapBound(cap, starts) && |Starting(s)| <= starts
  }

  lemma CappedShrinks(s: State, s': State, cap: nat, starts: nat)
    requires Capped(s, cap, starts)
    requires s'.tracked <= s.tracked && Committed(s') <= Committed(s) && Starting(s') <= Starting(s)
    ensures Capped(s', cap, starts)
  {
    SubsetSize(s'.tracked, s.tracked);
    SubsetSize(Committed(s'), Committed(s));
    SubsetSize(Starting(s'), Starting(s));
  }

  /** A start passes the check only while fewer than `cap` processes are tracked. */
  lemma PassCapped(s: State, t: TaskId, cap: nat, starts: nat)
    requires Capped(s, cap, starts) && t in s.tasks && s.tasks[t] == Checking && |s.tracked| < cap
    ensures Capped(Goto(s, t, Spawning), cap, starts)
  {
    var s' := Goto(s, t, Spawning);
    assert Starting(s') == Starting(s);
    SubsetSize(Committed(s'), Starting(s'));
  }

  lemma InsertCapped(s: State, t: TaskId, cap: nat, starts: nat)
    requires Capped(s, cap, starts) && t in s.tasks && s.tasks[t].Spawned?
    ensures Capped(Leave(s.(tracked := s.tracked + {s.tasks[t].pid}), t), cap, starts)
  {
    var s' := Leave(s.(tracked := s.tracked + {s.tasks[t].pid}), t);
    assert Committed(s') == Committed(s) - {t};
    assert Starting(s') == Starting(s) - {t};
  }

  lemma BeginCapped(s: State, t: TaskId, cap: nat, starts: nat)
    requires Capped(s, cap, starts) && t !in s.tasks && |Starting(s)| < starts
    ensures Capped(Goto(s, t, Checking), cap, starts)
  {
    BeginSets(s, t);
  }

  lemma BeginSets(s: State, t: TaskId)
    requires t !in s.tasks
    ensures Committed(Goto(s, t, Checking)) == Committed(s)
    ensures Starting(Goto(s, t, Checking)) == Starting(s) + {t}
  {
  }

  /** What a step that tracks no new process leaves of the tracked ones and the other tasks. */
  ghost predicate Quiet(s: State, s': State, t: TaskId) {
    && s'.tracked <= s.tracked
    && (!s'.reaped ==> s'.tracked == s.tracked)
    && (forall u | u in s'.tasks && u != t :: u in s.tasks && s'.tasks[u] == s.tasks[u])
    && (t in s'.tasks && IsStart(s'.tasks[t]) ==> t in s.tasks && s.tasks[t].Spawning?)
  }

  lemma QuietGoto(s: State, s1: State, t: TaskId, pc: Pc)
    requires s1.tracked == s.tracked && s1.tasks == s.tasks && t in s.tasks
    requires IsStart(pc) ==> s.tasks[t].Spawning?
    ensures Quiet(s, Goto(s1, t, pc), t)
  {
  }

  lemma QuietLeave(s: State, s1: State, t: TaskId)
    requires s1.tracked == s.tracked && s1.tasks == s.tasks
    ensures Quiet(s, Leave(s1, t), t)
  {
  }

  /** The remaining steps track no new process and start nothing. */
  lemma QuietStep(s: State, t: TaskId, ok: bool, pid: Pid, cap: nat)
    requires t in s.tasks && !s.tasks[t].Spawned? && !(s.tasks[t].Checking? && |s.tracked| < cap)
    ensures Quiet(s, TaskStep(s, t, ok, pid, cap), t)
  {
    var s' := TaskStep(s, t, ok, pid, cap);
    match s.tasks[t]
    case Checking => QuietLeave(s, s, t);
    case Spawning =>
      if !ok {
        QuietLeave(s, s, t);
      } else if pid !in s.procs {
        QuietGoto(s, s.(procs := s.procs[pid := Running]), t, Spawned(pid));
      }
    case Reaping(all, done, warned) => ReaperFrame(s, t, all, done, warned, ok, pid);
    case Holding(reply, began) => QuietLeave(s, s.(log := s.log + [Said(reply, began)]), t);
    case First(p, kind, began) =>
      if p in s.procs {
        QuietGoto(s, s, t, s'.tasks[t]);
        assert s' == Goto(s, t, s'.tasks[t]);
      }
    case Second(p, began) =>
      QuietGoto(s, s, t, s'.tasks[t]);
      assert s' == Goto(s, t, s'.tasks[t]);
    case Snapshotting =>
      QuietGoto(s, s.(raced := Starting(s) != {}), t, Reaping(s.tracked, {}, None));
  }

  lemma QuietCapped(s: State, s': State, t: TaskId, cap: nat, starts: nat)
    requires Capped(s, cap, starts) && Quiet(s, s', t)
    ensures Capped(s', cap, starts)
  {
    CappedShrinks(s, s', cap, starts);
  }

  lemma AdvanceCapped(s: State, t: TaskId, ok: bool, pid: Pid, cap: nat, starts: nat)
    requires Capped(s, cap, starts) && t in s.tasks
    ensures Capped(TaskStep(s, t, ok, pid, cap), cap, starts)
  {
    if s.tasks[t].Checking? && |s.tracked| < cap {
      PassCapped(s, t, cap, starts);
    } else if s.tasks[t].Spawned? {
      InsertCapped(s, t, cap, starts);
    } else {
      QuietStep(s, t, ok, pid, cap);
      QuietCapped(s, TaskStep(s, t, ok, pid, cap), t, cap, starts);
    }
  }

  lemma StepCapped(s: State, a: Action, cap: nat, starts: nat)
    requires Capped(s, cap, starts) && Enabled(s, a, starts)
    ensures Capped(Step(s, a, cap, starts), cap, starts)
  {
    match a
    case BeginStart(t) => BeginCapped(s, t, cap, starts);
    case Advance(t, ok, pid) => AdvanceCapped(s, t, ok, pid, cap, starts);
    case Exit(pid, w) => CappedShrinks(s, Step(s, a, cap, starts), cap, starts);
    case _ => QuietCapped(s, Step(s, a, cap, starts), a.t, cap, starts);
  }

  /** With at most `starts` concurrent start calls, across spawn failures and deletions, the tracked
      processes stay within the bound; with one start at a time that is the cap itself. */
  lemma {:induction false} TrackedWithinCap(run: seq<Action>, cap: nat, starts: nat)
    ensures Capped(After(run, cap, starts), cap, starts)
    ensures |After(run, cap, starts).tracked| <= CapBound(cap, starts)
  {
    if run == [] {
      assert Committed(EMPTY) == {} && Starting(EMPTY) == {};
    } else {
      var s, a := After(run[..|run| - 1], cap, starts), run[|run| - 1];
      TrackedWithinCap(run[..|run| - 1], cap, starts);
      if Enabled(s, a, starts) {
        StepCapped(s, a, cap, starts);
      }
    }
  }

  // ---- Deletion ----

  /** A process that is no longer running, or was sent the signal it cannot refuse. */
  predicate PutDown(s: State, p: Pid) {
    (p in s.procs && s.procs[p] != Running) || p in s.killed
  }

  /** Every process not yet tracked is in the hands of the start that spawned it. */
  ghost predicate Accounted(s: State) {
    forall p | p in s.procs && p !in s.tracked :: exists t :: t in s.tasks && s.tasks[t] == Spawned(p)
  }

  ghost predicate OneReaper(s: State) {
    && (forall t | t in s.tasks && IsReaper(s.tasks[t]) :: s.deleted && !s.reaped)
    && (s.reaped ==> s.deleted)
    && (forall t, u | t in s.tasks && u in s.tasks && IsReaper(s.tasks[t]) && IsReaper(s.tasks[u]) :: t == u)
  }

  /** The reaper that listed every process there is has dealt with those it is done with. */
  ghost predicate Progress(s: State, pc: Pc) {
    pc.Reaping? && !s.raced ==>
      && Starting(s) == {} && s.procs.Keys == pc.all && s.tracked <= pc.all
      && pc.done <= pc.all
      && (pc.warned.Some? ==> pc.warned.value in pc.all)
      && (forall p | p in pc.done :: PutDown(s, p))
  }

  ghost predicate Orderly(s: State) {
    && OneReaper(s)
    && (!s.reaped ==> Accounted(s))
    && (forall t | t in s.tasks :: Progress(s, s.tasks[t]))
    && (s.reaped && !s.raced ==> Starting(s) == {} && s.tracked == {} && forall p | p in s.procs :: PutDown(s, p))
  }

  lemma StartingNone(s: State)
    requires Starting(s) == {}
    ensures forall t | t in s.tasks :: !IsStart(s.tasks[t])
  {
    forall t | t in s.tasks ensures !IsStart(s.tasks[t]) {
      assert t !in Starting(s);
    }
  }

  /** From `s` to `s'` only task `t` moved, and it neither tracked, spawned nor reaped anything. */
  ghost predicate Undisturbed(s: State, s': State, t: TaskId) {
    && s'.procs == s.procs && s'.tracked == s.tracked && s'.killed == s.killed
    && s'.deleted == s.deleted && s'.raced == s.raced && s'.reaped == s.reaped
    && s'.tasks - {t} == s.tasks - {t}
    && (t in s.tasks ==> !s.tasks[t].Spawned?)
    && (t in s'.tasks ==> !IsReaper(s'.tasks[t]) && !s'.tasks[t].Spawned?)
    && (t in s'.tasks && IsStart(s'.tasks[t]) ==> !s.deleted || (t in s.tasks && IsStart(s.tasks[t])))
  }

  lemma OrderlyQuiet(s: State, s': State, t: TaskId)
    requires Orderly(s) && Undisturbed(s, s', t)
    ensures Orderly(s')
  {
    assert forall u | u in s'.tasks && u != t :: u in s'.tasks - {t};
    assert forall u | u in s'.tasks && u != t :: u in s.tasks && s'.tasks[u] == s.tasks[u];
    forall p | p in s'.procs && p !in s'.tracked && !s'.reaped
      ensures exists u :: u in s'.tasks && s'.tasks[u] == Spawned(p)
    {
      var u :| u in s.tasks && s.tasks[u] == Spawned(p);
      assert u in s.tasks - {t};
      assert u in s'.tasks && s'.tasks[u] == Spawned(p);
    }
    if s.deleted {
      assert Starting(s') <= Starting(s);
    }
    forall u | u in s'.tasks ensures Progress(s', s'.tasks[u]) {
      if u != t {
        assert Progress(s, s.tasks[u]);
      }
    }
  }

  lemma UndisturbedGoto(s: State, t: TaskId, pc: Pc)
    requires t in s.tasks && !s.tasks[t].Spawned? && !IsReaper(pc) && !pc.Spawned?
    requires IsStart(pc) ==> IsStart(s.tasks[t])
    ensures Undisturbed(s, Goto(s, t, pc), t)
  {
  }

  lemma UndisturbedLeave(s: State, t: TaskId, log: seq<Event>)
    requires t in s.tasks && !s.tasks[t].Spawned?
    ensures Undisturbed(s, Leave(s.(log := log), t), t)
  {
  }

  lemma QuietAdvance(s: State, t: TaskId, ok: bool, pid: Pid, cap: nat)
    requires t in s.tasks && !s.tasks[t].Spawned? && !IsReaper(s.tasks[t])
    requires !(s.tasks[t].Spawning? && ok && pid !in s.procs)
    ensures Undisturbed(s, TaskStep(s, t, ok, pid, cap), t)
  {
    var s' := TaskStep(s, t, ok, pid, cap);
    UndisturbedLeave(s, t, s.log);
    assert s.(log := s.log) == s;
    match s.tasks[t]
    case Checking => UndisturbedGoto(s, t, Spawning);
    case Spawning =>
    case Holding(reply, began) => UndisturbedLeave(s, t, s.log + [Said(reply, began)]);
    case First(p, _, _) =>
      if p in s.procs {
        UndisturbedGoto(s, t, s'.tasks[t]);
        assert s' == Goto(s, t, s'.tasks[t]);
      }
    case Second(_, _) =>
      UndisturbedGoto(s, t, s'.tasks[t]);
      assert s' == Goto(s, t, s'.tasks[t]);
  }

  lemma OrderlySpawn(s: State, t: TaskId, pid: Pid)
    requires Orderly(s) && Honest(s) && t in s.tasks && s.tasks[t] == Spawning && pid !in s.procs
    ensures Orderly(Goto(s.(procs := s.procs[pid := Running]), t, Spawned(pid)))
  {
    var s' := Goto(s.(procs := s.procs[pid := Running]), t, Spawned(pid));
    assert t in Starting(s) && t in Starting(s');
    assert s'.tasks[t] == Spawned(pid);
    forall p | p in s'.procs && p !in s'.tracked && !s'.reaped
      ensures exists u :: u in s'.tasks && s'.tasks[u] == Spawned(p)
    {
      if p != pid {
        var u :| u in s.tasks && s.tasks[u] == Spawned(p);
        assert u in s'.tasks && s'.tasks[u] == Spawned(p);
      }
    }
    forall u | u in s'.tasks ensures Progress(s', s'.tasks[u]) {
      if u != t {
        assert Progress(s, s.tasks[u]);
      }
    }
  }

  lemma OrderlyInsert(s: State, t: TaskId)
    requires Orderly(s) && t in s.tasks && s.tasks[t].Spawned?
    ensures Orderly(Leave(s.(tracked := s.tracked + {s.tasks[t].pid}), t))
  {
    var s' := Leave(s.(tracked := s.tracked + {s.tasks[t].pid}), t);
    assert t in Starting(s);
    forall p | p in s'.procs && p !in s'.tracked && !s'.reaped
      ensures exists u :: u in s'.tasks && s'.tasks[u] == Spawned(p)
    {
      var u :| u in s.tasks && s.tasks[u] == Spawned(p);
      assert u in s'.tasks && s'.tasks[u] == Spawned(p);
    }
    forall u | u in s'.tasks ensures Progress(s', s'.tasks[u]) {
      assert Progress(s, s.tasks[u]);
    }
  }

  lemma OrderlySnapshot(s: State, t: TaskId)
    requires Orderly(s) && Honest(s) && t in s.tasks && s.tasks[t] == Snapshotting
    ensures Orderly(Goto(s.(raced := Starting(s) != {}), t, Reaping(s.tracked, {}, None)))
  {
    var s' := Goto(s.(raced := Starting(s) != {}), t, Reaping(s.tracked, {}, None));
    assert Starting(s') == Starting(s);
    assert IsReaper(s.tasks[t]);
    forall p | p in s'.procs && p !in s'.tracked
      ensures exists u :: u in s'.tasks && s'.tasks[u] == Spawned(p)
    {
      var u :| u in s.tasks && s.tasks[u] == Spawned(p);
      assert u in s'.tasks && s'.tasks[u] == Spawned(p);
    }
    if Starting(s) == {} {
      StartingNone(s);
      assert forall p | p in s.procs :: p in s.tracked;
    }
    forall u | u in s'.tasks ensures Progress(s', s'.tasks[u]) {
      if u != t {
        assert !IsReaper(s.tasks[u]);
      }
    }
  }

  /** The reaper's own invariant, one turn further. */
  lemma ReaperProgress(s: State, t: TaskId, all: set<Pid>, done: set<Pid>, warned: Option<Pid>, ok: bool, pid: Pid)
    requires t in s.tasks && s.tasks[t] == Reaping(all, done, warned) && Progress(s, s.tasks[t])
    ensures var s' := ReaperStep(s, t, all, done, warned, ok, pid);
            t in s'.tasks ==> Progress(s', s'.tasks[t])
  {
    var s' := ReaperStep(s, t, all, done, warned, ok, pid);
    ReaperStarting(s, t, all, done, warned, ok, pid);
    if t in s'.tasks && !s.raced {
      forall p | p in s'.tasks[t].done ensures PutDown(s', p) {
        assert p in done ==> PutDown(s, p);
      }
    }
  }

  lemma ReaperFlags(s: State, t: TaskId, all: set<Pid>, done: set<Pid>, warned: Option<Pid>, ok: bool, pid: Pid)
    requires t in s.tasks && s.tasks[t] == Reaping(all, done, warned) && Progress(s, s.tasks[t])
    ensures var s' := ReaperStep(s, t, all, done, warned, ok, pid);
            && s'.raced == s.raced && s'.deleted == s.deleted
            && (t in s'.tasks ==> s'.reaped == s.reaped && s'.tracked == s.tracked)
            && (t !in s'.tasks ==>
                  s'.reaped && s'.tracked == {} && s'.procs == s.procs && s'.killed == s.killed && done == all)
  {
    var _, _, _ := ReaperForms(s, t, all, done, warned, ok, pid);
  }

  lemma ReaperStarting(s: State, t: TaskId, all: set<Pid>, done: set<Pid>, warned: Option<Pid>, ok: bool, pid: Pid)
    requires t in s.tasks && s.tasks[t] == Reaping(all, done, warned)
    ensures Starting(ReaperStep(s, t, all, done, warned, ok, pid)) == Starting(s)
  {
    var _, _, _ := ReaperForms(s, t, all, done, warned, ok, pid);
  }

  lemma OrderlyReap(s: State, t: TaskId, all: set<Pid>, done: set<Pid>, warned: Option<Pid>, ok: bool, pid: Pid)
    requires Orderly(s) && Honest(s) && t in s.tasks && s.tasks[t] == Reaping(all, done, warned)
    ensures Orderly(ReaperStep(s, t, all, done, warned, ok, pid))
  {
    var s' := ReaperStep(s, t, all, done, warned, ok, pid);
    assert Progress(s, s.tasks[t]) && IsReaper(s.tasks[t]);
    ReaperFrame(s, t, all, done, warned, ok, pid);
    ReaperProgress(s, t, all, done, warned, ok, pid);
    ReaperFlags(s, t, all, done, warned, ok, pid);
    ReaperStarting(s, t, all, done, warned, ok, pid);
    ReaperKeepsStarts(s, t, all, done, warned, ok, pid);
    forall u | u in s'.tasks ensures Progress(s', s'.tasks[u]) {
      if u != t {
        assert !IsReaper(s.tasks[u]);
      }
    }
  }

  lemma ReaperKeepsStarts(s: State, t: TaskId, all: set<Pid>, done: set<Pid>, warned: Option<Pid>, ok: bool, pid: Pid)
    requires t in s.tasks && s.tasks[t] == Reaping(all, done, warned) && !s.reaped && Accounted(s)
    ensures var s' := ReaperStep(s, t, all, done, warned, ok, pid); !s'.reaped ==> Accounted(s')
  {
    var s' := ReaperStep(s, t, all, done, warned, ok, pid);
    if !s'.reaped {
      forall p | p in s'.procs && p !in s'.tracked
        ensures exists u :: u in s'.tasks && s'.tasks[u] == Spawned(p)
      {
        var u :| u in s.tasks && s.tasks[u] == Spawned(p);
        assert u in s'.tasks && s'.tasks[u] == Spawned(p);
      }
    }
  }

  lemma OrderlyExit(s: State, pid: Pid, w: WaitResult)
    requires Orderly(s) && pid in s.procs
    ensures Orderly(s.(procs := s.procs[pid := FinalState(w)], log := s.log + [Ended(pid, w)]))
  {
    var s' := s.(procs := s.procs[pid := FinalState(w)], log := s.log + [Ended(pid, w)]);
    assert Starting(s') == Starting(s) && s'.procs.Keys == s.procs.Keys;
    forall u | u in s'.tasks ensures Progress(s', s'.tasks[u]) {
      assert Progress(s, s.tasks[u]);
    }
  }

  lemma OrderlyDelete(s: State, t: TaskId)
    requires Orderly(s) && t !in s.tasks && !s.deleted
    ensures Orderly(Goto(s.(deleted := true), t, Snapshotting))
  {
    var s' := Goto(s.(deleted := true), t, Snapshotting);
    forall p | p in s'.procs && p !in s'.tracked
      ensures exists u :: u in s'.tasks && s'.tasks[u] == Spawned(p)
    {
      var u :| u in s.tasks && s.tasks[u] == Spawned(p);
      assert u in s'.tasks && s'.tasks[u] == Spawned(p);
    }
    forall u | u in s'.tasks ensures Progress(s', s'.tasks[u]) {
      if u != t {
        assert !IsReaper(s.tasks[u]);
      }
    }
  }

  lemma AdvanceOrderly(s: State, t: TaskId, ok: bool, pid: Pid, cap: nat)
    requires Orderly(s) && Honest(s) && t in s.tasks
    ensures Orderly(TaskStep(s, t, ok, pid, cap))
  {
    match s.tasks[t]
    case Spawned(_) => OrderlyInsert(s, t);
    case Snapshotting => OrderlySnapshot(s, t);
    case Reaping(all, done, warned) => OrderlyReap(s, t, all, done, warned, ok, pid);
    case _ =>
      if s.tasks[t].Spawning? && ok && pid !in s.procs {
        OrderlySpawn(s, t, pid);
      } else {
        QuietAdvance(s, t, ok, pid, cap);
        OrderlyQuiet(s, TaskStep(s, t, ok, pid, cap), t);
      }
  }

  lemma StepOrderly(s: State, a: Action, cap: nat, starts: nat)
    requires Orderly(s) && Honest(s) && Enabled(s, a, starts)
    ensures Orderly(Step(s, a, cap, starts))
  {
    match a
    case BeginDelete(t) => OrderlyDelete(s, t);
    case Exit(pid, w) => OrderlyExit(s, pid, w);
    case Advance(t, ok, pid) => AdvanceOrderly(s, t, ok, pid, cap);
    case _ => OrderlyQuiet(s, Step(s, a, cap, starts), a.t);
  }

  lemma {:induction false} AlwaysOrderly(run: seq<Action>, cap: nat, starts: nat)
    ensures Orderly(After(run, cap, starts))
  {
    if run == [] {
      assert Starting(EMPTY) == {};
    } else {
      var s, a := After(run[..|run| - 1], cap, starts), run[|run| - 1];
      AlwaysOrderly(run[..|run| - 1], cap, starts);
      AlwaysHonest(run[..|run| - 1], cap, starts);
      if Enabled(s, a, starts) {
        StepOrderly(s, a, cap, starts);
      }
    }
  }

  /** A deletion that ran to its end, with no start in flight when it listed the processes, leaves nothing
      tracked and no process of the session neither ended nor killed; and so it stays. */
  lemma DeletionIsFinal(run: seq<Action>, cap: nat, starts: nat)
    requires After(run, cap, starts).reaped && !After(run, cap, starts).raced
    ensures var s := After(run, cap, starts); s.tracked == {} && forall p | p in s.procs :: PutDown(s, p)
  {
    AlwaysOrderly(run, cap, starts);
  }

  /** A task other than the deletion kills nothing and is no deletion afterwards; listing the processes warns none. */
  lemma OnlyTheReaperKills(s: State, t: TaskId, ok: bool, pid: Pid, cap: nat)
    requires t in s.tasks && !s.tasks[t].Reaping?
    ensures var s' := TaskStep(s, t, ok, pid, cap);
            && s'.killed == s.killed
            && (t in s'.tasks && s'.tasks[t].Reaping? ==> s'.tasks[t].warned == None)
  {
  }

  /** A process is killed only by the deletion, at its second look, after it was warned; and never when that look
      shows that it has ended. */
  lemma KillsOnlyTheWarned(s: State, t: TaskId, ok: bool, pid: Pid, cap: nat, p: Pid)
    requires t in s.tasks && p !in s.killed && p in TaskStep(s, t, ok, pid, cap).killed
    ensures s.tasks[t].Reaping? && s.tasks[t].warned == Some(p) && !(ok && p in s.procs && s.procs[p] != Running)
  {
    if !s.tasks[t].Reaping? {
      OnlyTheReaperKills(s, t, ok, pid, cap);
    }
  }

  /** And it is warned only when the first look does not show that it has ended. */
  lemma WarnsOnlyTheLiving(s: State, t: TaskId, ok: bool, pid: Pid, cap: nat)
    requires t in s.tasks && t in TaskStep(s, t, ok, pid, cap).tasks
    requires TaskStep(s, t, ok, pid, cap).tasks[t].Reaping? && TaskStep(s, t, ok, pid, cap).tasks[t].warned.Some?
    requires TaskStep(s, t, ok, pid, cap) != s
    ensures s.tasks[t].Reaping? && s.tasks[t].warned == None
    ensures TaskStep(s, t, ok, pid, cap).tasks[t].warned == Some(pid)
    ensures !(ok && pid in s.procs && s.procs[pid] != Running)
  {
    if !s.tasks[t].Reaping? {
      OnlyTheReaperKills(s, t, ok, pid, cap);
    }
  }

  /** Nothing holds a deletion up: it goes through the processes it listed, in any order, kills one that its second
      look does not show to have ended, and when it is done with all it forgets them and ends. */
  lemma DeletionGoesOn(s: State, t: TaskId, ok: bool, pid: Pid, cap: nat)
    requires t in s.tasks && s.tasks[t].Reaping?
    ensures var pc, s' := s.tasks[t], TaskStep(s, t, ok, pid, cap);
            match pc.warned
            case None =>
              if pc.done == pc.all then t !in s'.tasks && s'.tracked == {} && s'.reaped
              else pid in pc.all && pid !in pc.done ==>
                t in s'.tasks && s'.tasks[t] in {Reaping(pc.all, pc.done + {pid}, None),
                                                 Reaping(pc.all, pc.done, Some(pid))}
            case Some(p) =>
              && t in s'.tasks && s'.tasks[t] == Reaping(pc.all, pc.done + {p}, None)
              && (p in s'.killed || (ok && p in s.procs && s.procs[p] != Running))
  {
  }

  // ---- What the cap counts ----

  /** The tracked processes that still run. */
  function Active(s: State): set<Pid> {
    set p | p in s.tracked && p in s.procs && s.procs[p] == Running
  }

  function Finished(s: State): set<Pid> {
    set p | p in s.tracked && p in s.procs && s.procs[p] != Running
  }

  /** The next step of a start at its cap check turns it away. */
  ghost predicate TurnsAway(s: State, t: TaskId, cap: nat)
    requires t in s.tasks
  {
    forall ok, pid :: TaskStep(s, t, ok, pid, cap) == Leave(s, t)
  }

  lemma TurnsAwayAtCap(s: State, t: TaskId, cap: nat)
    requires t in s.tasks && s.tasks[t] == Checking
    ensures TurnsAway(s, t, cap) <==> |s.tracked| >= cap
  {
    if |s.tracked| < cap {
      assert t !in Leave(s, t).tasks && t in TaskStep(s, t, true, 0, cap).tasks;
    }
  }

  /** Nothing is untracked before the deletion has run to its end. */
  lemma TrackedStays(s: State, a: Action, cap: nat, starts: nat)
    requires !Step(s, a, cap, starts).reaped
    ensures s.tracked <= Step(s, a, cap, starts).tracked
  {
    if Enabled(s, a, starts) && a.Advance? {
      if !s.tasks[a.t].Spawned? && !(s.tasks[a.t].Checking? && |s.tracked| < cap) {
        QuietStep(s, a.t, a.ok, a.pid, cap);
      }
    }
  }

  lemma ActiveOrEnded(s: State)
    requires Honest(s)
    ensures |s.tracked| == |Active(s)| + |Finished(s)|
  {
    assert s.tracked == Active(s) + Finished(s);
    assert Active(s) !! Finished(s);
  }

  /** A start is never let through while `cap` processes are active; and one is turned away although fewer are
      active exactly when the ended processes that are still tracked make up for those. */
  lemma GuardCountsTheEnded(run: seq<Action>, cap: nat, starts: nat, t: TaskId)
    requires var s := After(run, cap, starts); t in s.tasks && s.tasks[t] == Checking
    ensures var s := After(run, cap, starts);
            && (|Active(s)| >= cap ==> TurnsAway(s, t, cap))
            && ((TurnsAway(s, t, cap) <==> |Active(s)| >= cap) <==> !(|Active(s)| < cap <= |Active(s)| + |Finished(s)|))
  {
    var s := After(run, cap, starts);
    AlwaysHonest(run, cap, starts);
    ActiveOrEnded(s);
    TurnsAwayAtCap(s, t, cap);
  }

  /** With one start at a time: the two disagree exactly when the cap is reached and a tracked process has
      ended. */
  lemma SerialGuard(run: seq<Action>, cap: nat, t: TaskId)
    requires var s := After(run, cap, 1); t in s.tasks && s.tasks[t] == Checking
    ensures var s := After(run, cap, 1);
            (TurnsAway(s, t, cap) <==> |Active(s)| >= cap) <==> |s.tracked| < cap || Finished(s) == {}
  {
    var s := After(run, cap, 1);
    GuardCountsTheEnded(run, cap, 1, t);
    AlwaysHonest(run, cap, 1);
    ActiveOrEnded(s);
    TrackedWithinCap(run, cap, 1);
  }

  /** The tasks that have spawned a process and not tracked it yet, and those processes. */
  function Spawners(s: State): set<TaskId> {
    set t | t in s.tasks && s.tasks[t].Spawned?
  }

  function Untracked(tasks: map<TaskId, Pc>, spawners: set<TaskId>): set<Pid> {
    set t | t in spawners && t in tasks && tasks[t].Spawned? :: tasks[t].pid
  }

  lemma {:induction false} UntrackedSize(tasks: map<TaskId, Pc>, spawners: set<TaskId>)
    requires forall t | t in spawners :: t in tasks && tasks[t].Spawned?
    ensures |Untracked(tasks, spawners)| <= |spawners|
    decreases |spawners|
  {
    if spawners == {} {
      assert Untracked(tasks, spawners) == {};
    } else {
      var t :| t in spawners;
      UntrackedSize(tasks, spawners - {t});
      assert Untracked(tasks, spawners) == Untracked(tasks, spawners - {t}) + {tasks[t].pid};
    }
  }

  lemma SpawnedWithinTracked(s: State)
    requires Accounted(s)
    ensures |s.procs| <= |s.tracked| + |Spawners(s)|
  {
    UntrackedSize(s.tasks, Spawners(s));
    forall p | p in s.procs.Keys ensures p in s.tracked + Untracked(s.tasks, Spawners(s)) {
      if p !in s.tracked {
        var t :| t in s.tasks && s.tasks[t] == Spawned(p);
        assert t in Spawners(s);
      }
    }
    SubsetSize(s.procs.Keys, s.tracked + Untracked(s.tasks, Spawners(s)));
  }

  /** Hence, until the session's deletion ends, the cap bounds every process the session ever spawned, not
      only those that are alive. */
  lemma SpawnedWithinCap(run: seq<Action>, cap: nat, starts: nat)
    requires !After(run, cap, starts).reaped
    ensures |After(run, cap, starts).procs| <= CapBound(cap, starts)
  {
    var s := After(run, cap, starts);
    AlwaysOrderly(run, cap, starts);
    TrackedWithinCap(run, cap, starts);
    SpawnedWithinTracked(s);
    SubsetSize(Spawners(s), Committed(s));
  }

  // ---- Why "began afterwards" is needed ----

  ghost predicate Reachable(s: State, cap: nat, starts: nat) {
    exists run :: After(run, cap, starts) == s
  }

  lemma Then(s: State, a: Action, s': State, cap: nat, starts: nat)
    requires Reachable(s, cap, starts) && Step(s, a, cap, starts) == s'
    ensures Reachable(s', cap, starts)
  {
    var run :| After(run, cap, starts) == s;
    assert (run + [a])[..|run + [a]| - 1] == run;
    assert After(run + [a], cap, starts) == s';
  }

  /** One process, in the given state, and the given requests and replies. */
  function Scene(p: ProcessState, tasks: map<TaskId, Pc>, log: seq<Event>): State {
    State(map[7 := p], {7}, tasks, log, {}, false, false, false)
  }

  lemma OneProcess()
    ensures Reachable(Scene(Running, map[], []), 1, 1)
  {
    assert After([], 1, 1) == EMPTY && Starting(EMPTY) == {};
    var s1 := EMPTY.(tasks := map[0 := Checking]);
    Then(EMPTY, BeginStart(0), s1, 1, 1);
    var s2 := EMPTY.(tasks := map[0 := Spawning]);
    Then(s1, Advance(0, true, 7), s2, 1, 1);
    var s3 := EMPTY.(procs := map[7 := Running], tasks := map[0 := Spawned(7)]);
    Then(s2, Advance(0, true, 7), s3, 1, 1);
    Then(s3, Advance(0, true, 7), Scene(Running, map[], []), 1, 1);
  }

  const STILL_UP := Reply(7, Brief, true, None, None)
  const GONE := Ended(7, Status(Some(0), None))
  const TOLD_CODE := Reply(7, Brief, false, Some(0), None)

  lemma WriteLooksFirst()
    ensures Reachable(Scene(Running, map[1 := Holding(STILL_UP, 0)], []), 1, 1)
  {
    OneProcess();
    var s1, s2 := Scene(Running, map[1 := First(7, Brief, 0)], []), Scene(Running, map[1 := Holding(STILL_UP, 0)], []);
    Then(Scene(Running, map[], []), BeginObserve(1, 7, Brief), s1, 1, 1);
    Then(s1, Advance(1, true, 0), s2, 1, 1);
  }

  lemma ChildExits()
    ensures Reachable(Scene(Exited(0), map[1 := Holding(STILL_UP, 0), 2 := First(7, Brief, 0)], [GONE]), 1, 1)
  {
    WriteLooksFirst();
    var w := Holding(STILL_UP, 0);
    var s1 := Scene(Running, map[1 := w, 2 := First(7, Brief, 0)], []);
    Then(Scene(Running, map[1 := w], []), BeginObserve(2, 7, Brief), s1, 1, 1);
    var s2 := Scene(Exited(0), map[1 := w, 2 := First(7, Brief, 0)], [GONE]);
    Then(s1, Exit(7, Status(Some(0), None)), s2, 1, 1);
  }

  lemma OtherIsToldTheCode()
    ensures Reachable(Scene(Exited(0), map[1 := Holding(STILL_UP, 0)], [GONE, Said(TOLD_CODE, 0)]), 1, 1)
  {
    ChildExits();
    var w := Holding(STILL_UP, 0);
    var s2 := Scene(Exited(0), map[1 := w, 2 := First(7, Brief, 0)], [GONE]);
    var s3 := Scene(Exited(0), map[1 := w, 2 := Holding(TOLD_CODE, 0)], [GONE]);
    Then(s2, Advance(2, true, 0), s3, 1, 1);
    var s4 := Scene(Exited(0), map[1 := w], [GONE, Said(TOLD_CODE, 0)]);
    assert s3.tasks - {2} == s4.tasks;
    Then(s3, Advance(2, true, 0), s4, 1, 1);
  }

  /** A `write` looks at the state, then feeds the child, then replies: it may still say "running" after
      another caller has been told the exit code. */
  lemma SlowWriteMayContradict()
    ensures exists run :: var log := After(run, 1, 1).log;
              && |log| == 3 && log[1].Said? && log[2].Said? && log[1].reply.pid == log[2].reply.pid
              && !log[1].reply.running && log[2].reply.running
  {
    OtherIsToldTheCode();
    var s := Scene(Exited(0), map[1 := Holding(STILL_UP, 0)], [GONE, Said(TOLD_CODE, 0)]);
    var s' := Scene(Exited(0), map[], [GONE, Said(TOLD_CODE, 0), Said(STILL_UP, 0)]);
    Then(s, Advance(1, true, 0), s', 1, 1);
    var run :| After(run, 1, 1) == s';
    assert After(run, 1, 1).log == [GONE, Said(TOLD_CODE, 0), Said(STILL_UP, 0)];
  }

  /** With a cap of 1, a session whose only process has ended turns the next start away. */
  lemma EndedProcessBlocksStart()
    ensures exists run :: var s := After(run, 1, 1);
              Active(s) == {} && s.tasks == map[1 := Checking] && !s.deleted && TurnsAway(s, 1, 1)
  {
    OneProcess();
    var s1 := Scene(Exited(0), map[], [GONE]);
    Then(Scene(Running, map[], []), Exit(7, Status(Some(0), None)), s1, 1, 1);
    var s2 := Scene(Exited(0), map[1 := Checking], [GONE]);
    assert Starting(s1) == {};
    Then(s1, BeginStart(1), s2, 1, 1);
    assert Active(s2) == {};
    TurnsAwayAtCap(s2, 1, 1);
    var run :| After(run, 1, 1) == s2;
  }

  /** A deletion that raced with one start, which has spawned process 7. */
  function Race(tracked: set<Pid>, tasks: map<TaskId, Pc>, raced: bool, reaped: bool): State {
    State(map[7 := Running], tracked, tasks, [], {}, true, raced, reaped)
  }

  lemma StartSpawns()
    ensures Reachable(EMPTY.(procs := map[7 := Running], tasks := map[0 := Spawned(7)]), 1, 1)
  {
    assert After([], 1, 1) == EMPTY && Starting(EMPTY) == {};
    var s1, s2 := EMPTY.(tasks := map[0 := Checking]), EMPTY.(tasks := map[0 := Spawning]);
    Then(EMPTY, BeginStart(0), s1, 1, 1);
    Then(s1, Advance(0, true, 7), s2, 1, 1);
    Then(s2, Advance(0, true, 7), EMPTY.(procs := map[7 := Running], tasks := map[0 := Spawned(7)]), 1, 1);
  }

  lemma DeletionMissesIt()
    ensures Reachable(Race({}, map[0 := Spawned(7)], true, true), 1, 1)
  {
    StartSpawns();
    var start, reaping := Spawned(7), Reaping({}, {}, None);
    var s3 := Race({}, map[0 := start, 1 := Snapshotting], false, false);
    var s4 := Race({}, map[0 := start, 1 := reaping], true, false);
    var s5 := Race({}, map[0 := start], true, true);
    Then(EMPTY.(procs := map[7 := Running], tasks := map[0 := start]), BeginDelete(1), s3, 1, 1);
    assert 0 in Starting(s3);
    assert s3.tasks[1 := reaping] == s4.tasks && s4.tasks - {1} == s5.tasks;
    Then(s3, Advance(1, true, 0), s4, 1, 1);
    Then(s4, Advance(1, true, 0), s5, 1, 1);
  }

  /** Without "raced with no start" the deletion need not be final: a process spawned before the deletion lists the
      processes, but tracked only after it, outlives the session. */
  lemma RacingStartOutlivesDeletion()
    ensures exists run :: var s := After(run, 1, 1);
              && s.reaped && s.raced && s.tasks == map[]
              && s.tracked == {7} && s.procs == map[7 := Running] && !PutDown(s, 7)
  {
    DeletionMissesIt();
    var s := Race({7}, map[], true, true);
    Then(Race({}, map[0 := Spawned(7)], true, true), Advance(0, true, 0), s, 1, 1);
    var run :| After(run, 1, 1) == s;
  }
}
