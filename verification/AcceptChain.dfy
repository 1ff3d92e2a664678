/** The TLS accept chain (include/streams.hpp) and the connection pipeline on
    the thread pool (include/server.hpp) as one state machine. The event loop
    runs any queued task, the pool advances any connection; every network
    outcome is left open. No exception escapes a task. */
module AcceptChain {

  /** What the event loop has queued. Connections are numbered as accepted. */
  datatype Task = Accept | Handshake(conn: nat) | Work(conn: nat)

  /** What is sent back: the handler's answer or the error page. */
  datatype Response = Answer | ErrorPage

  /** How far a connection has come on the pool; Failed ended in an error of
      the write or the close. */
  datatype Stage = Queued | Requested | Routed | Responding(response: Response) | Written | Closed | Failed

  datatype Event = Wrote(conn: nat, response: Response, ok: bool) | Closing(conn: nat)

  datatype State = State(
    tasks: multiset<Task>,
    accepted: nat,
    failed: seq<nat>,
    handedOff: seq<nat>,
    jobs: map<nat, Stage>,
    log: seq<Event>
  )

  const INITIAL: State := State(multiset{Accept}, 0, [], [], map[], [])

  /** One step: the event loop runs a task, or the pool advances a job; `ok`
      is what the network, the router or the handler makes of it. */
  datatype Label = RunTask(task: Task, ok: bool) | RunJob(conn: nat, ok: bool)

  predicate Enabled(s: State, l: Label) {
    match l
    case RunTask(task, _) => task in s.tasks
    case RunJob(conn, _) => conn in s.jobs && s.jobs[conn] !in {Closed, Failed}
  }

  /** A task ends by queueing its successor. */
  function TaskStep(s: State, task: Task, ok: bool): State {
    var rest := s.tasks - multiset{task};
    match task
    case Accept =>
      if !ok then s.(tasks := rest + multiset{Accept})
      else s.(tasks := rest + multiset{Handshake(s.accepted)}, accepted := s.accepted + 1)
    case Handshake(c) =>
      if !ok then s.(tasks := rest + multiset{Accept}, failed := s.failed + [c])
      else s.(tasks := rest + multiset{Work(c)})
    case Work(c) =>
      s.(tasks := rest + multiset{Accept}, handedOff := s.handedOff + [c], jobs := s.jobs[c := Queued])
  }

  /** Read, select, process and write; an error before the write turns into
      the error page, an error of the write skips the close. */
  function JobStep(s: State, c: nat, ok: bool): State
    requires c in s.jobs
  {
    match s.jobs[c]
    case Queued => s.(jobs := s.jobs[c := if ok then Requested else Responding(ErrorPage)])
    case Requested => s.(jobs := s.jobs[c := if ok then Routed else Responding(ErrorPage)])
    case Routed => s.(jobs := s.jobs[c := Responding(if ok then Answer else ErrorPage)])
    case Responding(r) => s.(jobs := s.jobs[c := if ok then Written else Failed], log := s.log + [Wrote(c, r, ok)])
    case Written => s.(jobs := s.jobs[c := if ok then Closed else Failed], log := s.log + [Closing(c)])
    case Closed => s
    case Failed => s
  }

  function Step(s: State, l: Label): State
    requires Enabled(s, l)
  {
    match l
    case RunTask(task, ok) => TaskStep(s, task, ok)
    case RunJob(conn, ok) => JobStep(s, conn, ok)
  }

  /** A run: the states reached by a sequence of enabled steps. */
  ghost predicate IsRun(states: seq<State>, labels: seq<Label>) {
    && |states| == |labels| + 1 && states[0] == INITIAL
    && forall i :: 0 <= i < |labels| ==> Enabled(states[i], labels[i]) && states[i + 1] == Step(states[i], labels[i])
  }

  // ---------------------------------------------------------- the event loop

  /** The connection a task holds. */
  function Holds(t: Task): seq<nat> {
    match t
    case Accept => []
    case Handshake(c) => [c]
    case Work(c) => [c]
  }

  /** The first n connections in accept order, without the failed ones. */
  function Surviving(n: nat, failed: seq<nat>): seq<nat> {
    if n == 0 then [] else Surviving(n - 1, failed) + if n - 1 in failed then [] else [n - 1]
  }

  lemma {:induction false} SurvivingIgnores(n: nat, failed: seq<nat>, c: nat)
    requires n <= c
    ensures Surviving(n, failed + [c]) == Surviving(n, failed)
  {
    if n > 0 { SurvivingIgnores(n - 1, failed, c); }
  }

  lemma {:induction false} SurvivingRises(n: nat, failed: seq<nat>)
    ensures forall i, j :: 0 <= i < j < |Surviving(n, failed)| ==> Surviving(n, failed)[i] < Surviving(n, failed)[j]
    ensures forall c <- Surviving(n, failed) :: c < n && c !in failed
    ensures forall c: nat :: c < n && c !in failed ==> c in Surviving(n, failed)
  {
    if n > 0 {
      SurvivingRises(n - 1, failed);
      var before, now := Surviving(n - 1, failed), Surviving(n, failed);
      assert forall i :: 0 <= i < |before| ==> now[i] == before[i] && before[i] in before;
    }
  }

  /** With t the one queued task: handed-off connections and the one t holds
      are the accepted ones that did not fail, in order. */
  ghost predicate ChainAt(s: State, t: Task) {
    && s.tasks == multiset{t}
    && (forall c <- s.failed :: c < s.accepted)
    && (!t.Accept? ==> s.accepted > 0 && t.conn == s.accepted - 1 && t.conn !in s.failed)
    && s.handedOff + Holds(t) == Surviving(s.accepted, s.failed)
    && |s.failed| + |s.handedOff| + |Holds(t)| == s.accepted
  }

  lemma {:induction false} TaskKeepsChain(s: State, t: Task, ok: bool) returns (t': Task)
    requires ChainAt(s, t)
    ensures ChainAt(TaskStep(s, t, ok), t')
  {
    var s' := TaskStep(s, t, ok);
    match t
    case Accept =>
      t' := if ok then Handshake(s.accepted) else Accept;
      assert s.handedOff + [] == s.handedOff;
      assert s.tasks - multiset{Accept} == multiset{};
    case Handshake(c) =>
      t' := if ok then Work(c) else Accept;
      assert s.tasks - multiset{t} == multiset{};
      if !ok {
        SurvivingIgnores(c, s.failed, c);
        assert Surviving(s.accepted, s.failed) == Surviving(c, s.failed) + [c];
        assert s'.handedOff + [] == s.handedOff;
        assert (s.handedOff + [c])[..|s.handedOff|] == s.handedOff;
      }
    case Work(c) =>
      t' := Accept;
      assert s.tasks - multiset{t} == multiset{};
      assert s'.handedOff + [] == s'.handedOff;
  }

  // --------------------------------------------------------------- the pool

  /** How often a response write was tried on a connection. */
  function Writes(log: seq<Event>, c: nat): nat {
    if log == [] then 0
    else Writes(log[..|log| - 1], c) + if log[|log| - 1].Wrote? && log[|log| - 1].conn == c then 1 else 0
  }

  lemma {:induction false} WritesAppend(log: seq<Event>, e: Event, c: nat)
    ensures Writes(log + [e], c) == Writes(log, c) + if e.Wrote? && e.conn == c then 1 else 0
  {
    assert (log + [e])[..|log|] == log;
  }

  predicate PastWrite(stage: Stage) { stage in {Written, Closed, Failed} }

  /** A response was written to the connection without an error. */
  ghost predicate Answered(log: seq<Event>, c: nat) {
    exists r :: Wrote(c, r, true) in log
  }

  /** What the log says of a connection at a stage. */
  ghost predicate LogFits(log: seq<Event>, c: nat, stage: Stage) {
    && Writes(log, c) == (if PastWrite(stage) then 1 else 0)
    && (stage in {Written, Closed} ==> Answered(log, c))
    && (stage == Closed ==> Closing(c) in log)
  }

  ghost predicate ClosesFollowWrites(log: seq<Event>) {
    forall j :: 0 <= j < |log| && log[j].Closing? ==> Answered(log[..j], log[j].conn)
  }

  ghost predicate PoolInv(s: State) {
    && (forall c :: c in s.jobs <==> c in s.handedOff)
    && (forall c :: c in s.jobs ==> LogFits(s.log, c, s.jobs[c]))
    && (forall e <- s.log :: e.conn in s.jobs)
    && ClosesFollowWrites(s.log)
  }

  lemma {:induction false} NoWrites(log: seq<Event>, c: nat)
    requires forall e <- log :: e.conn != c
    ensures Writes(log, c) == 0
    decreases |log|
  {
    if log != [] { NoWrites(log[..|log| - 1], c); }
  }

  lemma {:induction false} AppendKeepsCloses(log: seq<Event>, e: Event)
    requires ClosesFollowWrites(log) && (e.Closing? ==> Answered(log, e.conn))
    ensures ClosesFollowWrites(log + [e])
  {
    var log' := log + [e];
    forall j | 0 <= j < |log'| && log'[j].Closing? ensures Answered(log'[..j], log'[j].conn) {
      assert log'[..j] == log[..j];
      assert log[..|log|] == log;
    }
  }

  lemma {:induction false} OthersUntouched(log: seq<Event>, e: Event, d: nat, stage: Stage)
    requires LogFits(log, d, stage) && e.conn != d
    ensures LogFits(log + [e], d, stage)
  {
    WritesAppend(log, e, d);
    AnsweredStays(log, e, d);
  }

  lemma {:induction false} AnsweredStays(log: seq<Event>, e: Event, c: nat)
    ensures Answered(log, c) ==> Answered(log + [e], c)
    ensures e.Wrote? && e.conn == c && e.ok ==> Answered(log + [e], c)
  {
    if r :| Wrote(c, r, true) in log { assert Wrote(c, r, true) in log + [e]; }
    if e.Wrote? && e.conn == c && e.ok { assert Wrote(c, e.response, true) in log + [e]; }
  }

  lemma {:induction false} OwnEvent(log: seq<Event>, c: nat, stage: Stage, ok: bool)
    requires LogFits(log, c, stage)
    ensures stage.Responding? ==>
              LogFits(log + [Wrote(c, stage.response, ok)], c, if ok then Written else Failed)
    ensures stage == Written ==> LogFits(log + [Closing(c)], c, if ok then Closed else Failed)
  {
    if stage.Responding? {
      WritesAppend(log, Wrote(c, stage.response, ok), c);
      AnsweredStays(log, Wrote(c, stage.response, ok), c);
    }
    WritesAppend(log, Closing(c), c);
    AnsweredStays(log, Closing(c), c);
  }

  /** A stage that writes nothing. */
  lemma {:induction false} QuietStep(s: State, c: nat, stage: Stage)
    requires PoolInv(s) && c in s.jobs
    requires !PastWrite(s.jobs[c]) && !PastWrite(stage) && stage != Closed
    ensures PoolInv(s.(jobs := s.jobs[c := stage]))
  {
    var s' := s.(jobs := s.jobs[c := stage]);
    forall d | d in s'.jobs ensures LogFits(s'.log, d, s'.jobs[d]) {
      assert LogFits(s.log, d, s.jobs[d]);
    }
  }

  /** A stage that writes to its own connection. */
  lemma {:induction false} LoudStep(s: State, c: nat, stage: Stage, e: Event)
    requires PoolInv(s) && c in s.jobs && e.conn == c
    requires LogFits(s.log + [e], c, stage)
    requires e.Closing? ==> Answered(s.log, c)
    ensures PoolInv(s.(jobs := s.jobs[c := stage], log := s.log + [e]))
  {
    var s' := s.(jobs := s.jobs[c := stage], log := s.log + [e]);
    AppendKeepsCloses(s.log, e);
    forall d | d in s'.jobs ensures LogFits(s'.log, d, s'.jobs[d]) {
      if d != c {
        assert LogFits(s.log, d, s.jobs[d]);
        OthersUntouched(s.log, e, d, s.jobs[d]);
      }
    }
  }

  lemma {:induction false} JobKeepsPool(s: State, c: nat, ok: bool)
    requires PoolInv(s) && c in s.jobs && s.jobs[c] !in {Closed, Failed}
    ensures PoolInv(JobStep(s, c, ok))
  {
    assert LogFits(s.log, c, s.jobs[c]);
    OwnEvent(s.log, c, s.jobs[c], ok);
    match s.jobs[c]
    case Queued => QuietStep(s, c, if ok then Requested else Responding(ErrorPage));
    case Requested => QuietStep(s, c, if ok then Routed else Responding(ErrorPage));
    case Routed => QuietStep(s, c, Responding(if ok then Answer else ErrorPage));
    case Responding(r) => LoudStep(s, c, if ok then Written else Failed, Wrote(c, r, ok));
    case Written => LoudStep(s, c, if ok then Closed else Failed, Closing(c));
  }

  lemma {:induction false} HandOffKeepsPool(s: State, c: nat)
    requires PoolInv(s) && c !in s.handedOff
    ensures PoolInv(TaskStep(s, Work(c), true)) && PoolInv(TaskStep(s, Work(c), false))
  {
    var s' := TaskStep(s, Work(c), true);
    assert s' == TaskStep(s, Work(c), false);
    NoWrites(s.log, c);
    forall d | d in s'.jobs ensures LogFits(s'.log, d, s'.jobs[d]) {
      if d != c { assert LogFits(s.log, d, s.jobs[d]); }
    }
  }

  // ------------------------------------------------------------- every run

  ghost predicate Inv(s: State) {
    PoolInv(s) && exists t :: ChainAt(s, t)
  }

  lemma {:induction false} StepKeepsInv(s: State, l: Label)
    requires Inv(s) && Enabled(s, l)
    ensures Inv(Step(s, l))
  {
    var t :| ChainAt(s, t);
    match l
    case RunTask(task, ok) => TaskKeepsInv(s, t, ok);
    case RunJob(conn, ok) =>
      JobKeepsPool(s, conn, ok);
      assert ChainAt(JobStep(s, conn, ok), t);
  }

  lemma {:induction false} TaskKeepsInv(s: State, t: Task, ok: bool)
    requires PoolInv(s) && ChainAt(s, t)
    ensures Inv(TaskStep(s, t, ok))
  {
    var t' := TaskKeepsChain(s, t, ok);
    if t.Work? {
      HeldIsNew(s, t);
      HandOffKeepsPool(s, t.conn);
    }
  }

  lemma {:induction false} HeldIsNew(s: State, t: Task)
    requires ChainAt(s, t) && !t.Accept?
    ensures t.conn !in s.handedOff
  {
    SurvivingRises(s.accepted, s.failed);
    var all := s.handedOff + [t.conn];
    assert all[|s.handedOff|] == t.conn;
    assert forall i :: 0 <= i < |s.handedOff| ==> all[i] == s.handedOff[i];
  }

  lemma {:induction false} RunKeepsInv(states: seq<State>, labels: seq<Label>, n: nat)
    requires IsRun(states, labels) && n <= |labels|
    ensures Inv(states[n])
  {
    if n == 0 {
      assert ChainAt(INITIAL, Accept);
    } else {
      RunKeepsInv(states, labels, n - 1);
      StepKeepsInv(states[n - 1], labels[n - 1]);
    }
  }

  /** At every moment of every run exactly one task of the chain is queued, so
      the event loop never runs dry. */
  lemma {:induction false} OneTaskQueued(states: seq<State>, labels: seq<Label>, n: nat)
    requires IsRun(states, labels) && n <= |labels|
    ensures |states[n].tasks| == 1
  {
    RunKeepsInv(states, labels, n);
  }

  /** Connections are conserved: each accepted one has failed its handshake, or
      was handed off, or is the one in progress. Hand-offs happen in accept
      order and leave no surviving connection out. */
  lemma {:induction false} ConnectionsConserved(states: seq<State>, labels: seq<Label>, n: nat) returns (task: Task)
    requires IsRun(states, labels) && n <= |labels|
    ensures states[n].tasks == multiset{task}
    ensures states[n].accepted == |states[n].failed| + |states[n].handedOff| + |Holds(task)| && |Holds(task)| <= 1
    ensures states[n].handedOff + Holds(task) == Surviving(states[n].accepted, states[n].failed)
    ensures forall i, j :: 0 <= i < j < |states[n].handedOff| ==> states[n].handedOff[i] < states[n].handedOff[j]
    ensures forall c <- states[n].failed :: c !in states[n].handedOff
  {
    RunKeepsInv(states, labels, n);
    var s := states[n];
    task :| ChainAt(s, task);
    SurvivingRises(s.accepted, s.failed);
    var all := s.handedOff + Holds(task);
    assert forall i :: 0 <= i < |s.handedOff| ==> all[i] == s.handedOff[i];
    assert forall c <- s.handedOff :: c in all;
  }

  /** Each handed-off connection sees at most one response write, and exactly
      one once it is done; a close is only ever tried after a write that
      succeeded; nothing is written to a connection not handed off. */
  lemma {:induction false} OneWriteThenClose(states: seq<State>, labels: seq<Label>, n: nat, c: nat)
    requires IsRun(states, labels) && n <= |labels|
    ensures Writes(states[n].log, c) <= 1
    ensures c in states[n].jobs <==> c in states[n].handedOff
    ensures c !in states[n].jobs ==> Writes(states[n].log, c) == 0
    ensures c in states[n].jobs && states[n].jobs[c] in {Closed, Failed} ==> Writes(states[n].log, c) == 1
    ensures c in states[n].jobs && states[n].jobs[c] == Closed ==> Closing(c) in states[n].log
    ensures forall j :: 0 <= j < |states[n].log| && states[n].log[j] == Closing(c) ==>
              Answered(states[n].log[..j], c)
  {
    RunKeepsInv(states, labels, n);
    var s := states[n];
    if c in s.jobs {
      assert LogFits(s.log, c, s.jobs[c]);
    } else {
      NoWrites(s.log, c);
    }
  }

  // ------------------------------------------- what the outcomes of a run decide

  /** How many accepts succeeded. */
  function Accepts(labels: seq<Label>): nat {
    if labels == [] then 0
    else Accepts(labels[..|labels| - 1]) + if labels[|labels| - 1] == RunTask(Accept, true) then 1 else 0
  }

  /** The connections whose handshake ended this way, in order. */
  function Handshakes(labels: seq<Label>, ok: bool): seq<nat> {
    if labels == [] then []
    else
      var l := labels[|labels| - 1];
      Handshakes(labels[..|labels| - 1], ok) +
      if l.RunTask? && l.task.Handshake? && l.ok == ok then [l.task.conn] else []
  }

  /** The outcomes of a connection's stages, in order. */
  function Outcomes(labels: seq<Label>, c: nat): seq<bool> {
    if labels == [] then []
    else
      var l := labels[|labels| - 1];
      Outcomes(labels[..|labels| - 1], c) + if l.RunJob? && l.conn == c then [l.ok] else []
  }

  /** What the log has of a connection. */
  function EventsOf(log: seq<Event>, c: nat): seq<Event> {
    if log == [] then []
    else EventsOf(log[..|log| - 1], c) + if log[|log| - 1].conn == c then [log[|log| - 1]] else []
  }

  lemma {:induction false} InHandshakes(labels: seq<Label>, ok: bool, c: nat)
    ensures c in Handshakes(labels, ok) <==> RunTask(Handshake(c), ok) in labels
    decreases |labels|
  {
    if labels != [] {
      var n := |labels| - 1;
      InHandshakes(labels[..n], ok, c);
      assert labels == labels[..n] + [labels[n]];
    }
  }

  lemma {:induction false} LabelsAppend(labels: seq<Label>, l: Label, ok: bool, c: nat)
    ensures Accepts(labels + [l]) == Accepts(labels) + if l == RunTask(Accept, true) then 1 else 0
    ensures Handshakes(labels + [l], ok) ==
            Handshakes(labels, ok) + if l.RunTask? && l.task.Handshake? && l.ok == ok then [l.task.conn] else []
    ensures Outcomes(labels + [l], c) == Outcomes(labels, c) + if l.RunJob? && l.conn == c then [l.ok] else []
  {
    assert (labels + [l])[..|labels|] == labels;
  }

  /** With t the queued task: who was accepted, who failed and who passed. */
  ghost predicate Decided(s: State, t: Task, labels: seq<Label>) {
    && s.accepted == Accepts(labels)
    && s.failed == Handshakes(labels, false)
    && s.handedOff + (if t.Work? then [t.conn] else []) == Handshakes(labels, true)
  }

  lemma {:induction false} TaskDecides(s: State, t: Task, labels: seq<Label>, ok: bool, t': Task)
    requires ChainAt(s, t) && Decided(s, t, labels)
    requires t' in TaskStep(s, t, ok).tasks
    ensures Decided(TaskStep(s, t, ok), t', labels + [RunTask(t, ok)])
  {
    LabelsAppend(labels, RunTask(t, ok), true, 0);
    LabelsAppend(labels, RunTask(t, ok), false, 0);
    assert s.tasks - multiset{t} == multiset{};
  }

  lemma {:induction false} JobKeepsTasks(s: State, c: nat, ok: bool)
    requires c in s.jobs
    ensures var s' := JobStep(s, c, ok);
            s'.tasks == s.tasks && s'.accepted == s.accepted && s'.failed == s.failed && s'.handedOff == s.handedOff
  {
  }

  lemma {:induction false} JobDecides(s: State, t: Task, labels: seq<Label>, c: nat, ok: bool)
    requires Decided(s, t, labels) && c in s.jobs
    ensures Decided(JobStep(s, c, ok), t, labels + [RunJob(c, ok)])
  {
    var l := RunJob(c, ok);
    JobKeepsTasks(s, c, ok);
    LabelsAppend(labels, l, true, 0);
    LabelsAppend(labels, l, false, 0);
    assert Handshakes(labels + [l], true) == Handshakes(labels, true);
    assert Handshakes(labels + [l], false) == Handshakes(labels, false);
  }

  lemma {:induction false} StepDecides(s: State, t: Task, labels: seq<Label>, l: Label, t': Task)
    requires ChainAt(s, t) && Enabled(s, l) && Decided(s, t, labels)
    requires ChainAt(Step(s, l), t')
    ensures Decided(Step(s, l), t', labels + [l])
  {
    assert t' in Step(s, l).tasks;
    match l
    case RunTask(task, ok) => TaskDecides(s, t, labels, ok, t');
    case RunJob(c, ok) => JobDecides(s, t, labels, c, ok);
  }

  lemma {:induction false} RunStep(states: seq<State>, labels: seq<Label>, n: nat)
    requires IsRun(states, labels) && n < |labels|
    ensures Enabled(states[n], labels[n]) && states[n + 1] == Step(states[n], labels[n])
    ensures labels[..n + 1] == labels[..n] + [labels[n]]
  {
  }

  lemma {:induction false} QueuedTask(states: seq<State>, labels: seq<Label>, n: nat) returns (t: Task)
    requires IsRun(states, labels) && n <= |labels|
    ensures ChainAt(states[n], t)
  {
    RunKeepsInv(states, labels, n);
    t :| ChainAt(states[n], t);
  }

  lemma {:induction false} RunDecides(states: seq<State>, labels: seq<Label>, n: nat) returns (t: Task)
    requires IsRun(states, labels) && n <= |labels|
    ensures ChainAt(states[n], t) && Decided(states[n], t, labels[..n])
  {
    if n == 0 {
      t := Accept;
      assert ChainAt(INITIAL, Accept) && labels[..0] == [];
    } else {
      var before := RunDecides(states, labels, n - 1);
      t := QueuedTask(states, labels, n);
      RunStep(states, labels, n - 1);
      StepDecides(states[n - 1], before, labels[..n - 1], labels[n - 1], t);
    }
  }

  /** The outcomes of a run decide who is who: accepted are as many as accepts
      succeeded, failed are those whose handshake failed, in that order, and
      handed off those whose handshake succeeded, but for one still waiting. */
  lemma {:induction false} OutcomesDecide(states: seq<State>, labels: seq<Label>, n: nat, c: nat)
    requires IsRun(states, labels) && n <= |labels|
    ensures states[n].accepted == Accepts(labels[..n])
    ensures states[n].failed == Handshakes(labels[..n], false)
    ensures c in states[n].failed <==> RunTask(Handshake(c), false) in labels[..n]
    ensures c in states[n].handedOff || Work(c) in states[n].tasks <==> RunTask(Handshake(c), true) in labels[..n]
    ensures states[n].handedOff <= Handshakes(labels[..n], true)
    ensures |Handshakes(labels[..n], true)| <= |states[n].handedOff| + 1
  {
    var t := RunDecides(states, labels, n);
    InHandshakes(labels[..n], false, c);
    InHandshakes(labels[..n], true, c);
    var s := states[n];
    assert Work(c) in s.tasks <==> t == Work(c);
    assert c in Handshakes(labels[..n], true) <==> c in s.handedOff || t == Work(c);
  }

  /** The outcomes of read, select and process that lead to each response. */
  predicate Prepares(outcomes: seq<bool>, r: Response) {
    match r
    case Answer => outcomes == [true, true, true]
    case ErrorPage => outcomes == [false] || outcomes == [true, false] || outcomes == [true, true, false]
  }

  /** What a connection at a stage has been through: the outcomes so far and
      what was done on it. */
  ghost predicate Traced(stage: Stage, outcomes: seq<bool>, events: seq<Event>, c: nat) {
    match stage
    case Queued => outcomes == [] && events == []
    case Requested => outcomes == [true] && events == []
    case Routed => outcomes == [true, true] && events == []
    case Responding(r) => Prepares(outcomes, r) && events == []
    case Written =>
      exists pre, r :: Prepares(pre, r) && outcomes == pre + [true] && events == [Wrote(c, r, true)]
    case Closed =>
      exists pre, r :: Prepares(pre, r) && outcomes == pre + [true, true] && events == [Wrote(c, r, true), Closing(c)]
    case Failed =>
      exists pre, r :: Prepares(pre, r) &&
        ((outcomes == pre + [false] && events == [Wrote(c, r, false)]) ||
         (outcomes == pre + [true, false] && events == [Wrote(c, r, true), Closing(c)]))
  }

  ghost predicate JobTraced(s: State, labels: seq<Label>, c: nat) {
    if c in s.jobs then Traced(s.jobs[c], Outcomes(labels, c), EventsOf(s.log, c), c)
    else Outcomes(labels, c) == [] && EventsOf(s.log, c) == []
  }

  lemma {:induction false} EventsAppend(log: seq<Event>, e: Event, c: nat)
    ensures EventsOf(log + [e], c) == EventsOf(log, c) + if e.conn == c then [e] else []
  {
    assert (log + [e])[..|log|] == log;
  }

  lemma {:induction false} JobStepTraced(stage: Stage, outcomes: seq<bool>, events: seq<Event>, c: nat, ok: bool)
    requires Traced(stage, outcomes, events, c) && stage !in {Closed, Failed}
    ensures stage == Queued ==> Traced(if ok then Requested else Responding(ErrorPage), outcomes + [ok], events, c)
    ensures stage == Requested ==> Traced(if ok then Routed else Responding(ErrorPage), outcomes + [ok], events, c)
    ensures stage == Routed ==> Traced(Responding(if ok then Answer else ErrorPage), outcomes + [ok], events, c)
    ensures stage.Responding? ==>
              Traced(if ok then Written else Failed, outcomes + [ok], events + [Wrote(c, stage.response, ok)], c)
    ensures stage == Written ==>
              Traced(if ok then Closed else Failed, outcomes + [ok], events + [Closing(c)], c)
  {
    match stage
    case Responding(r) =>
      assert Prepares(outcomes, r) && events + [Wrote(c, r, ok)] == [Wrote(c, r, ok)];
    case Written =>
      var pre, r :| Prepares(pre, r) && outcomes == pre + [true] && events == [Wrote(c, r, true)];
      assert outcomes + [ok] == pre + [true, ok];
    case _ =>
  }

  lemma {:induction false} TaskTraces(s: State, labels: seq<Label>, task: Task, ok: bool, c: nat)
    requires JobTraced(s, labels, c) && (task == Work(c) ==> c !in s.jobs)
    ensures JobTraced(TaskStep(s, task, ok), labels + [RunTask(task, ok)], c)
  {
    LabelsAppend(labels, RunTask(task, ok), true, c);
  }

  lemma {:induction false} OtherJobUntouched(s: State, d: nat, ok: bool, c: nat)
    requires d in s.jobs && d != c
    ensures var s' := JobStep(s, d, ok);
            && EventsOf(s'.log, c) == EventsOf(s.log, c)
            && (c in s'.jobs <==> c in s.jobs) && (c in s.jobs ==> s'.jobs[c] == s.jobs[c])
  {
    if s.jobs[d].Responding? { EventsAppend(s.log, Wrote(d, s.jobs[d].response, ok), c); }
    EventsAppend(s.log, Closing(d), c);
  }

  lemma {:induction false} OtherJobTraces(s: State, labels: seq<Label>, d: nat, ok: bool, c: nat)
    requires JobTraced(s, labels, c) && d in s.jobs && d != c
    ensures JobTraced(JobStep(s, d, ok), labels + [RunJob(d, ok)], c)
  {
    OtherJobUntouched(s, d, ok, c);
    LabelsAppend(labels, RunJob(d, ok), true, c);
    assert Outcomes(labels + [RunJob(d, ok)], c) == Outcomes(labels, c);
  }

  lemma {:induction false} OwnJobTraces(s: State, labels: seq<Label>, c: nat, ok: bool)
    requires JobTraced(s, labels, c) && c in s.jobs && s.jobs[c] !in {Closed, Failed}
    ensures JobTraced(JobStep(s, c, ok), labels + [RunJob(c, ok)], c)
  {
    LabelsAppend(labels, RunJob(c, ok), true, c);
    var stage := s.jobs[c];
    JobStepTraced(stage, Outcomes(labels, c), EventsOf(s.log, c), c, ok);
    if stage.Responding? { EventsAppend(s.log, Wrote(c, stage.response, ok), c); }
    EventsAppend(s.log, Closing(c), c);
  }

  lemma {:induction false} StepTraces(s: State, labels: seq<Label>, l: Label, c: nat)
    requires Enabled(s, l) && JobTraced(s, labels, c)
    requires l.RunTask? && l.task == Work(c) ==> c !in s.jobs
    ensures JobTraced(Step(s, l), labels + [l], c)
  {
    match l
    case RunTask(task, ok) => TaskTraces(s, labels, task, ok, c);
    case RunJob(d, ok) =>
      if d == c { OwnJobTraces(s, labels, c, ok); } else { OtherJobTraces(s, labels, d, ok, c); }
  }

  lemma {:induction false} WorkIsNew(s: State, c: nat)
    requires Inv(s) && Work(c) in s.tasks
    ensures c !in s.jobs
  {
    var t :| ChainAt(s, t);
    HeldIsNew(s, t);
  }

  /** What every connection has been through at every moment of every run. In
      particular the answer is written exactly if read, select and process
      succeeded, the error page if one of them failed, and the close is tried
      exactly if that write succeeded. */
  lemma {:induction false} EveryJobTraced(states: seq<State>, labels: seq<Label>, n: nat, c: nat)
    requires IsRun(states, labels) && n <= |labels|
    ensures JobTraced(states[n], labels[..n], c)
  {
    if n > 0 {
      EveryJobTraced(states, labels, n - 1, c);
      RunStep(states, labels, n - 1);
      RunKeepsInv(states, labels, n - 1);
      if Work(c) in states[n - 1].tasks { WorkIsNew(states[n - 1], c); }
      StepTraces(states[n - 1], labels[..n - 1], labels[n - 1], c);
    }
  }

  // ------------------------------------------------- the state kept in place

  /** The server's own state, changed by the bodies of its tasks and jobs; each
      method is the step of the machine above that bears its name. */
  class Server {
    var tasks: multiset<Task>
    var accepted: nat
    var failed: seq<nat>
    var handedOff: seq<nat>
    var jobs: map<nat, Stage>
    var log: seq<Event>

    ghost function Snapshot(): State
      reads this
    {
      State(tasks, accepted, failed, handedOff, jobs, log)
    }

    constructor ()
      ensures Snapshot() == INITIAL && Inv(Snapshot())
    {
      tasks, accepted, failed, handedOff, jobs, log := multiset{}, 0, [], [], map[], [];
      new;
      Spawn(Accept);
      assert ChainAt(Snapshot(), Accept);
    }

    method Spawn(task: Task)
      modifies this`tasks
      ensures tasks == old(tasks) + multiset{task}
    {
      tasks := tasks + multiset{task};
    }

    method DoAccept(ec: bool)
      requires Inv(Snapshot()) && Accept in tasks
      modifies this
      ensures Snapshot() == Step(old(Snapshot()), RunTask(Accept, !ec)) && Inv(Snapshot())
    {
      StepKeepsInv(Snapshot(), RunTask(Accept, !ec));
      tasks := tasks - multiset{Accept};
      if ec {
        Spawn(Accept);
        return;
      }
      var reader := accepted;
      accepted := accepted + 1;
      Spawn(Handshake(reader));
    }

    method DoHandshake(reader: nat, ec: bool)
      requires Inv(Snapshot()) && Handshake(reader) in tasks
      modifies this
      ensures Snapshot() == Step(old(Snapshot()), RunTask(Handshake(reader), !ec)) && Inv(Snapshot())
    {
      StepKeepsInv(Snapshot(), RunTask(Handshake(reader), !ec));
      tasks := tasks - multiset{Handshake(reader)};
      if ec {
        failed := failed + [reader];
        Spawn(Accept);
        return;
      }
      Spawn(Work(reader));
    }

    /** The work function starts a detached job on the pool. */
    method DoWork(reader: nat)
      requires Inv(Snapshot()) && Work(reader) in tasks
      modifies this
      ensures Snapshot() == Step(old(Snapshot()), RunTask(Work(reader), true)) && Inv(Snapshot())
    {
      StepKeepsInv(Snapshot(), RunTask(Work(reader), true));
      tasks := tasks - multiset{Work(reader)};
      jobs := jobs[reader := Queued];
      handedOff := handedOff + [reader];
      Spawn(Accept);
    }

    /** One stage of handleClientRequest. */
    method Advance(conn: nat, ok: bool)
      requires Inv(Snapshot()) && conn in jobs && jobs[conn] !in {Closed, Failed}
      modifies this
      ensures Snapshot() == Step(old(Snapshot()), RunJob(conn, ok)) && Inv(Snapshot())
    {
      StepKeepsInv(Snapshot(), RunJob(conn, ok));
      match jobs[conn]
      case Queued => jobs := jobs[conn := if ok then Requested else Responding(ErrorPage)];
      case Requested => jobs := jobs[conn := if ok then Routed else Responding(ErrorPage)];
      case Routed => jobs := jobs[conn := Responding(if ok then Answer else ErrorPage)];
      case Responding(response) =>
        log := log + [Wrote(conn, response, ok)];
        jobs := jobs[conn := if ok then Written else Failed];
      case Written =>
        log := log + [Closing(conn)];
        jobs := jobs[conn := if ok then Closed else Failed];
    }
  }
}
