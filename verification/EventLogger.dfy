/** EventLogger (event_tracer.cc) with its auto-reset shutdown event (event.cc): producers, the logging
    thread and the thread that calls Start and Stop, as a step protocol. Events are opaque values. */
module EventLogger {
  type Thread = nat

  /** An event, with the number of the session in which its producer passed the fast path. */
  datatype Event = Event(payload: int, checkedIn: nat)

  /** Where the thread calling Start and Stop is. */
  datatype Control = Stopped | Clearing | Activating | Starting | Running | Signalling | Joining | Failed

  /** Where the logging thread is in Log. `last` is its local shutting_down. */
  datatype Logger = NotRunning | Waiting | Sleeping | Swapping(last: bool) | Writing(last: bool) | Finished

  /** The record of a session: what its Start discarded, what it wrote, and how much had been appended
      at its Start's clear and at its Stop's Set. */
  datatype Session = Session(discarded: seq<Event>, file: seq<Event>, clearedAt: nat, shutdownAt: nat)

  /** The shared variables, the threads' positions, and the history: every event appended, the sessions
      that are over and the one that is open. */
  datatype State = State(
    armed: map<Thread, Event>,
    appended: seq<Event>, past: seq<Session>, session: Session,
    pending: seq<Event>, batch: seq<Event>,
    control: Control, logger: Logger,
    active: bool, signalled: bool, fileOpen: bool)

  datatype Step =
    | BeginStart | Clear | Activate | StartThread
    | BeginStop | Signal | Join
    | Check(t: Thread, payload: int) | Append(t: Thread)
    | Log(timeout: bool)

  // ---------------------------------------------------------------------------------------------
  // Steps

  function NoSession(): Session { Session([], [], 0, 0) }

  function Init(): State {
    State(map[], [], [], NoSession(), [], [], Stopped, NotRunning, false, false, false)
  }

  function ControlStep(s: State, step: Step): State {
    match (step, s.control)
    case (BeginStart, Stopped) => s.(control := Clearing, fileOpen := true)
    case (Clear, Clearing) =>
      s.(control := Activating, pending := [], session := Session(s.pending, [], |s.appended|, 0))
    case (Activate, Activating) =>
      if s.active then s.(control := Failed) else s.(control := Starting, active := true)
    case (StartThread, Starting) => s.(control := Running, logger := Waiting)
    case (BeginStop, Running) => if s.active then s.(control := Signalling, active := false) else s
    case (BeginStop, Stopped) => if s.active then s.(control := Signalling, active := false) else s
    case (Signal, Signalling) =>
      s.(control := Joining, signalled := true, session := s.session.(shutdownAt := |s.appended|))
    case (Join, Joining) =>
      if s.logger.Finished? then
        s.(control := Stopped, logger := NotRunning, past := s.past + [s.session], session := NoSession())
      else s
    case _ => s
  }

  /** AddTraceEvent behind the fast path: the flag is read in one step, the event appended in another. */
  function ProducerStep(s: State, step: Step): State {
    match step
    case Check(t, payload) =>
      if t !in s.armed && s.active then s.(armed := s.armed[t := Event(payload, |s.past|)]) else s
    case Append(t) =>
      if t in s.armed then
        s.(armed := s.armed - {t}, pending := s.pending + [s.armed[t]], appended := s.appended + [s.armed[t]])
      else s
    case _ => s
  }

  /** A step of Wait: it returns at once when the event is set, and otherwise when it is woken with the
      event set, which it resets, or by its timeout, whatever the event is by then. */
  function WaitStep(s: State, timeout: bool): State {
    if s.logger.Sleeping? && timeout then s.(logger := Swapping(false))
    else if s.signalled then s.(signalled := false, logger := Swapping(true))
    else s.(logger := Sleeping)
  }

  function SwapStep(s: State, last: bool): State {
    s.(batch := s.pending, pending := [], logger := Writing(last))
  }

  function WriteStep(s: State, last: bool): State {
    if s.batch != [] then s.(batch := s.batch[1..], session := s.session.(file := s.session.file + [s.batch[0]]))
    else if last then s.(fileOpen := false, logger := Finished)
    else s.(logger := Waiting)
  }

  /** A step of Log. */
  function LogStep(s: State, timeout: bool): State {
    match s.logger
    case NotRunning => s
    case Waiting => WaitStep(s, timeout)
    case Sleeping => WaitStep(s, timeout)
    case Swapping(last) => SwapStep(s, last)
    case Writing(last) => WriteStep(s, last)
    case Finished => s
  }

  function Next(s: State, step: Step): State {
    match step
    case Check(_, _) => ProducerStep(s, step)
    case Append(_) => ProducerStep(s, step)
    case Log(timeout) => LogStep(s, timeout)
    case _ => ControlStep(s, step)
  }

  function Run(s: State, steps: seq<Step>): State
    decreases |steps|
  {
    if steps == [] then s else Run(Next(s, steps[0]), steps[1..])
  }

  // ---------------------------------------------------------------------------------------------
  // The invariant

  /** What was discarded before each session and what it wrote, in turn. */
  function Woven(ss: seq<Session>): seq<Event>
    decreases |ss|
  {
    if ss == [] then []
    else
      var k := |ss| - 1;
      Woven(ss[..k]) + (ss[k].discarded + ss[k].file)
  }

  ghost predicate Conserved(s: State) {
    s.appended == Woven(s.past) + (s.session.discarded + s.session.file) + (s.batch + s.pending)
  }

  predicate InSession(c: Control) { c.Running? || c.Signalling? || c.Joining? }

  /** The logging thread has consumed the shutdown signal. */
  predicate Leaving(l: Logger) {
    match l
    case Swapping(last) => last
    case Writing(last) => last
    case Finished => true
    case _ => false
  }

  /** How the threads' positions, the flag, the event and the file go together. */
  ghost predicate Phase(s: State) {
    && (s.batch != [] ==> s.logger.Writing?)
    && (s.logger.NotRunning? <==> !InSession(s.control))
    && s.active == (s.control.Starting? || s.control.Running?)
    && s.fileOpen == (!s.control.Stopped? && !s.logger.Finished?)
    && !s.control.Failed?
    && s.signalled == (s.control.Joining? && !Leaving(s.logger))
    && (Leaving(s.logger) ==> s.control.Joining?)
  }

  /** A session that is over: it began with what was appended after its clear, and wrote at least
      everything appended before its shutdown. */
  ghost predicate Complete(base: nat, x: Session) {
    x.clearedAt == base + |x.discarded| && x.clearedAt <= x.shutdownAt <= x.clearedAt + |x.file|
  }

  ghost predicate AllComplete(ss: seq<Session>)
    decreases |ss|
  {
    ss != [] ==>
      var k := |ss| - 1;
      AllComplete(ss[..k]) && Complete(|Woven(ss[..k])|, ss[k])
  }

  /** The open session. After its last swap the batch holds what it still owes. */
  ghost predicate Open(s: State) {
    if s.control.Stopped? || s.control.Clearing? then s.session == NoSession()
    else
      && s.session.clearedAt == |Woven(s.past)| + |s.session.discarded|
      && s.session.clearedAt <= |s.appended|
      && (s.control.Joining? ==> s.session.clearedAt <= s.session.shutdownAt <= |s.appended|)
      && (s.logger == Writing(true) || s.logger.Finished? ==>
            s.session.shutdownAt <= s.session.clearedAt + |s.session.file| + |s.batch|)
  }

  /** The fast path is passed only while it is open: a producer in flight carries the number of this
      session or of an earlier one, and of an earlier one until this session is activated. */
  ghost predicate Stamped(s: State) {
    forall t <- s.armed :: s.armed[t].checkedIn < |s.past| + (if MayArm(s.control) then 1 else 0)
  }

  /** The session with number `|past|` has been activated. */
  predicate MayArm(c: Control) { c.Starting? || InSession(c) }

  ghost predicate Inv(s: State) {
    Conserved(s) && Phase(s) && AllComplete(s.past) && Open(s) && Stamped(s)
  }

  lemma {:induction false} InitHasInv()
    ensures Inv(Init())
  {
  }

  lemma {:induction false} ProducerKeepsInv(s: State, step: Step)
    requires Inv(s)
    ensures Inv(ProducerStep(s, step))
  {
    var n := ProducerStep(s, step);
    if step.Append? && step.t in s.armed {
      var e := s.armed[step.t];
      assert n.batch + n.pending == (s.batch + s.pending) + [e];
    }
  }

  lemma {:induction false} LogKeepsInv(s: State, timeout: bool)
    requires Inv(s)
    ensures Inv(LogStep(s, timeout))
  {
    var n := LogStep(s, timeout);
    LogKeepsPhase(s, timeout);
    LogIsOneOf(s, timeout, n);
    if s.logger.Swapping? {
      SwapKeeps(s, n);
    } else if s.logger.Writing? && s.batch != [] {
      WriteConserves(s, n);
    } else {
      MoveKeeps(s, n);
    }
    Assemble(s, n);
  }

  lemma {:induction false} Assemble(s: State, n: State)
    requires AllComplete(s.past) && Stamped(s) && n.past == s.past && n.armed == s.armed && n.control == s.control
    requires Conserved(n) && Phase(n) && Open(n)
    ensures Inv(n)
  {
  }

  /** A step that only moves the logging thread, resets the event or closes the file. */
  ghost predicate OnlyMoves(s: State, n: State) {
    && n.control == s.control && n.armed == s.armed && n.pending == s.pending && n.batch == s.batch
    && n.appended == s.appended && n.past == s.past && n.session == s.session
    && (n.logger == Writing(true) || n.logger.Finished? ==> s.logger == Writing(true) || s.logger.Finished?)
  }

  ghost predicate Swaps(s: State, n: State) {
    && s.logger.Swapping? && n.logger == Writing(s.logger.last)
    && n.control == s.control && n.armed == s.armed && n.pending == [] && n.batch == s.pending
    && n.appended == s.appended && n.past == s.past && n.session == s.session
  }

  ghost predicate WritesOne(s: State, n: State) {
    && n.control == s.control && n.armed == s.armed && n.pending == s.pending && n.logger == s.logger
    && s.batch != [] && n.batch == s.batch[1..]
    && n.appended == s.appended && n.past == s.past
    && n.session == s.session.(file := s.session.file + [s.batch[0]])
  }

  lemma {:induction false} WaitMoves(s: State, timeout: bool, n: State)
    requires (s.logger.Waiting? || s.logger.Sleeping?) && n == WaitStep(s, timeout)
    ensures OnlyMoves(s, n)
  {
  }

  lemma {:induction false} SwapSwaps(s: State, last: bool, n: State)
    requires s.logger == Swapping(last) && n == SwapStep(s, last)
    ensures Swaps(s, n)
  {
  }

  lemma {:induction false} WriteWrites(s: State, last: bool, n: State)
    requires s.logger == Writing(last) && n == WriteStep(s, last)
    ensures if s.batch != [] then WritesOne(s, n) else OnlyMoves(s, n)
  {
  }

  lemma {:induction false} LogIsOneOf(s: State, timeout: bool, n: State)
    requires n == LogStep(s, timeout)
    ensures if s.logger.Swapping? then Swaps(s, n)
            else if s.logger.Writing? && s.batch != [] then WritesOne(s, n)
            else OnlyMoves(s, n)
  {
    match s.logger
    case Swapping(last) => SwapSwaps(s, last, n);
    case Writing(last) => WriteWrites(s, last, n);
    case Waiting => WaitMoves(s, timeout, n);
    case Sleeping => WaitMoves(s, timeout, n);
    case NotRunning =>
    case Finished =>
  }

  lemma {:induction false} LogKeepsPhase(s: State, timeout: bool)
    requires Phase(s)
    ensures Phase(LogStep(s, timeout))
  {
  }

  lemma {:induction false} MoveKeeps(s: State, n: State)
    requires Conserved(s) && Open(s) && OnlyMoves(s, n)
    ensures Conserved(n) && Open(n)
  {
  }

  lemma {:induction false} SwapKeeps(s: State, n: State)
    requires Conserved(s) && Open(s) && Phase(s) && Swaps(s, n)
    ensures Conserved(n) && Open(n)
  {
    assert s.batch == [] && n.batch + n.pending == s.batch + s.pending;
    assert |s.appended| == |Woven(s.past)| + |s.session.discarded| + |s.session.file| + |s.pending|;
  }

  lemma {:induction false} WriteConserves(s: State, n: State)
    requires Conserved(s) && Open(s) && Phase(s) && s.logger.Writing? && WritesOne(s, n)
    ensures Conserved(n) && Open(n)
  {
    Shift(Woven(s.past), s.session.discarded, s.session.file, s.batch, s.pending);
  }

  lemma {:induction false} Shift(woven: seq<Event>, discarded: seq<Event>, file: seq<Event>, batch: seq<Event>, pending: seq<Event>)
    requires batch != []
    ensures woven + (discarded + file) + (batch + pending)
         == woven + (discarded + (file + [batch[0]])) + (batch[1..] + pending)
  {
  }

  lemma {:induction false} ControlKeepsInv(s: State, step: Step)
    requires Inv(s)
    ensures Inv(ControlStep(s, step))
  {
    ControlKeepsPhase(s, step);
    var n := ControlStep(s, step);
    if step.Clear? && s.control.Clearing? {
      ClearConserves(s, n);
    } else if step.Join? && s.control.Joining? && s.logger.Finished? {
      JoinCompletes(s, n);
    } else {
      OtherControl(s, n, step);
    }
  }

  lemma {:induction false} ControlKeepsPhase(s: State, step: Step)
    requires Phase(s)
    ensures Phase(ControlStep(s, step))
  {
  }

  lemma {:induction false} OtherControl(s: State, n: State, step: Step)
    requires Inv(s) && n == ControlStep(s, step) && !(step.Clear? && s.control.Clearing?) && n.past == s.past
    ensures Conserved(n) && Open(n)
  {
  }

  lemma {:induction false} ClearConserves(s: State, n: State)
    requires Inv(s) && s.control.Clearing? && n == ControlStep(s, Clear)
    ensures Conserved(n) && Open(n)
  {
  }

  lemma {:induction false} WovenSnoc(ss: seq<Session>, x: Session)
    ensures Woven(ss + [x]) == Woven(ss) + (x.discarded + x.file)
    ensures AllComplete(ss) && Complete(|Woven(ss)|, x) ==> AllComplete(ss + [x])
  {
    assert (ss + [x])[..|ss|] == ss;
  }

  lemma {:induction false} NothingMore(w: seq<Event>, p: seq<Event>)
    ensures w + ([] + []) + ([] + p) == w + ([] + p)
  {
  }

  lemma {:induction false} JoinCompletes(s: State, n: State)
    requires Inv(s) && s.control.Joining? && s.logger.Finished? && n == ControlStep(s, Join)
    ensures Conserved(n) && AllComplete(n.past)
  {
    assert s.batch == [] && n.past == s.past + [s.session];
    WovenSnoc(s.past, s.session);
    NothingMore(Woven(n.past), s.pending);
  }

  lemma {:induction false} StepKeepsInv(s: State, step: Step)
    requires Inv(s)
    ensures Inv(Next(s, step))
  {
    match step
    case Check(_, _) => ProducerKeepsInv(s, step);
    case Append(_) => ProducerKeepsInv(s, step);
    case Log(timeout) => LogKeepsInv(s, timeout);
    case _ => ControlKeepsInv(s, step);
  }

  lemma {:induction false} RunKeepsInv(s: State, steps: seq<Step>)
    requires Inv(s)
    ensures Inv(Run(s, steps))
    decreases |steps|
  {
    if steps == [] {
    } else {
      StepKeepsInv(s, steps[0]);
      RunKeepsInv(Next(s, steps[0]), steps[1..]);
    }
  }

  lemma {:induction false} Reachable(steps: seq<Step>)
    ensures Inv(Run(Init(), steps))
  {
    InitHasInv();
    RunKeepsInv(Init(), steps);
  }

  // ---------------------------------------------------------------------------------------------
  // What every run keeps

  /** Nothing is lost, duplicated or reordered: what was appended is, in order, what each Start
      discarded and each session wrote, then the batch being written, then what is pending. */
  lemma {:induction false} Conservation(steps: seq<Step>)
    ensures var s := Run(Init(), steps);
            s.appended == Woven(s.past) + (s.session.discarded + s.session.file) + (s.batch + s.pending)
  {
    Reachable(steps);
  }

  /** The checks of Start and Log pass: Start finds no file and the flag clear, Log finds its file. */
  lemma {:induction false} ChecksPass(steps: seq<Step>)
    ensures var s := Run(Init(), steps);
            && !s.control.Failed?
            && (s.control.Stopped? ==> !s.fileOpen && !s.signalled && s.logger.NotRunning?)
            && (s.control.Activating? ==> !s.active)
            && (s.logger.Waiting? ==> s.fileOpen)
  {
    Reachable(steps);
  }

  lemma {:induction false} WovenPrefix(ss: seq<Session>, j: nat)
    requires j <= |ss|
    ensures Woven(ss[..j]) <= Woven(ss)
    decreases |ss|
  {
    if j < |ss| {
      var k := |ss| - 1;
      WovenPrefix(ss[..k], j);
      assert ss[..k][..j] == ss[..j];
    } else {
      assert ss[..j] == ss;
    }
  }

  lemma {:induction false} CompleteAt(ss: seq<Session>, j: nat)
    requires AllComplete(ss) && j < |ss|
    ensures Complete(|Woven(ss[..j])|, ss[j])
    ensures |Woven(ss[..j + 1])| == ss[j].clearedAt + |ss[j].file|
    ensures Woven(ss[..j + 1]) == Woven(ss[..j]) + (ss[j].discarded + ss[j].file)
    decreases |ss|
  {
    var k := |ss| - 1;
    if j < k {
      CompleteAt(ss[..k], j);
      assert ss[..k][..j] == ss[..j] && ss[..k][..j + 1] == ss[..j + 1];
    } else {
      assert ss[..j + 1] == ss;
    }
  }

  /** What session `j` wrote is the stretch of the append history from its Start's clear on, reaching
      at least to its Stop's Set, and ending before the next session begins. */
  ghost predicate WroteItsStretch(appended: seq<Event>, ss: seq<Session>, j: nat)
    requires j < |ss|
  {
    var x := ss[j];
    var end := x.clearedAt + |x.file|;
    && end <= |appended| && x.file == appended[x.clearedAt..end]
    && x.clearedAt <= x.shutdownAt <= end
    && (j + 1 < |ss| ==> end <= ss[j + 1].clearedAt)
  }

  lemma {:induction false} StretchOf(appended: seq<Event>, ss: seq<Session>, j: nat)
    requires AllComplete(ss) && j < |ss| && Woven(ss) <= appended
    ensures WroteItsStretch(appended, ss, j)
  {
    CompleteAt(ss, j);
    WovenPrefix(ss, j + 1);
    StretchInPrefix(appended, Woven(ss[..j]), ss[j]);
    if j + 1 < |ss| {
      CompleteAt(ss, j + 1);
    }
  }

  lemma {:induction false} StretchInPrefix(appended: seq<Event>, base: seq<Event>, x: Session)
    requires base + (x.discarded + x.file) <= appended && x.clearedAt == |base| + |x.discarded|
    ensures x.clearedAt + |x.file| <= |appended| && x.file == appended[x.clearedAt..x.clearedAt + |x.file|]
  {
    var w := base + (x.discarded + x.file);
    assert w[x.clearedAt..] == x.file;
    assert appended[..|w|] == w;
  }

  /** Every event appended between a session's clear and its shutdown is written, once, by that
      session; the sessions write in append order, and no event twice. */
  lemma {:induction false} SessionsWriteTheirEvents(steps: seq<Step>, j: nat)
    requires j < |Run(Init(), steps).past|
    ensures var s := Run(Init(), steps); WroteItsStretch(s.appended, s.past, j)
  {
    var s := Run(Init(), steps);
    Reachable(steps);
    StretchOf(s.appended, s.past, j);
  }

  lemma {:induction false} PrefixOf(a: seq<Event>, b: seq<Event>, c: seq<Event>)
    requires c == a + b
    ensures a <= c
  {
  }

  lemma {:induction false} HeadOf(a: seq<Event>, from: nat, to: nat, end: nat)
    requires from <= to <= end <= |a|
    ensures a[from..to] <= a[from..end]
  {
  }

  /** When Stop returns, what was appended between the clear and the Set is at the head of the file. */
  lemma {:induction false} StopReturns(s: State)
    requires Inv(s) && s.control.Joining? && s.logger.Finished?
    ensures var x := s.session;
            x.clearedAt <= x.shutdownAt <= |s.appended| && s.appended[x.clearedAt..x.shutdownAt] <= x.file
  {
    var x := s.session;
    assert s.batch == [];
    PrefixOf(Woven(s.past) + (x.discarded + x.file), s.batch + s.pending, s.appended);
    StretchInPrefix(s.appended, Woven(s.past), x);
    HeadOf(s.appended, x.clearedAt, x.shutdownAt, x.clearedAt + |x.file|);
  }

  // ---------------------------------------------------------------------------------------------
  // Stop returns

  function Rank(l: Logger): nat {
    match l
    case NotRunning => 0
    case Finished => 0
    case Writing(last) => if last then 1 else 4
    case Swapping(last) => if last then 2 else 5
    case Waiting => 3
    case Sleeping => 6
  }

  /** A bound on the steps left until the logging thread is done. */
  function Left(s: State): nat {
    |s.armed| + |s.armed| + |s.pending| + |s.batch| + Rank(s.logger)
  }

  lemma {:induction false} AppendLeavesLess(s: State, t: Thread)
    requires t in s.armed
    ensures Left(ProducerStep(s, Append(t))) < Left(s)
  {
    assert s.armed.Keys == (s.armed - {t}).Keys + {t};
  }

  lemma {:induction false} LogLeavesLess(s: State, timeout: bool)
    requires Phase(s) && s.control.Joining? && !s.logger.Finished?
    ensures Left(LogStep(s, timeout)) < Left(s)
  {
  }

  /** Once Stop is joining, every step of a producer or of the logging thread that does anything brings
      the end nearer, however they interleave, and the logging thread always has such a step. */
  lemma {:induction false} JoiningMakesProgress(s: State, step: Step)
    requires Inv(s) && s.control.Joining?
    ensures step.Check? ==> Next(s, step) == s
    ensures step.Append? && step.t in s.armed ==> Left(Next(s, step)) < Left(s)
    ensures step.Log? && !s.logger.Finished? ==> Left(Next(s, step)) < Left(s)
  {
    if step.Append? && step.t in s.armed {
      AppendLeavesLess(s, step.t);
    } else if step.Log? && !s.logger.Finished? {
      LogLeavesLess(s, step.timeout);
    }
  }

  /** What the open session will have written if nothing more is appended. */
  function Outcome(s: State): seq<Event> {
    s.session.file + (s.batch + if s.logger == Writing(true) || s.logger.Finished? then [] else s.pending)
  }

  lemma {:induction false} LogKeepsOutcome(s: State)
    requires Inv(s) && s.control.Joining? && !s.logger.Finished?
    ensures var n := LogStep(s, false);
            Outcome(n) == Outcome(s) && n.past == s.past && n.control.Joining? && n.armed == s.armed
  {
    var n := LogStep(s, false);
    if s.logger.Writing? && s.batch != [] {
      assert s.batch == [s.batch[0]] + s.batch[1..];
    } else if s.logger.Swapping? {
      assert n.batch == s.batch + s.pending && n.pending == [];
    }
  }

  lemma {:induction false} RunCons(s: State, a: Step, rest: seq<Step>)
    ensures Run(s, [a] + rest) == Run(Next(s, a), rest)
  {
    assert ([a] + rest)[1..] == rest;
  }

  /** Left to itself the logging thread writes everything outstanding, and the join goes through. */
  lemma {:induction false} StopCompletes(s: State) returns (steps: seq<Step>)
    requires Inv(s) && s.control.Joining?
    ensures |steps| <= Left(s) + 1
    ensures var n := Run(s, steps);
            && n.control.Stopped? && n.armed == s.armed
            && |n.past| == |s.past| + 1 && n.past[|s.past|].file == Outcome(s)
    decreases Left(s)
  {
    if s.logger.Finished? {
      steps := [Join] + [];
      RunCons(s, Join, []);
      assert Outcome(s) == s.session.file;
    } else {
      var step := Log(false);
      JoiningMakesProgress(s, step);
      StepKeepsInv(s, step);
      LogKeepsOutcome(s);
      var rest := StopCompletes(Next(s, step));
      steps := [step] + rest;
      RunCons(s, step, rest);
    }
  }

  // ---------------------------------------------------------------------------------------------
  // While the session runs, its timeouts get everything written

  /** A bound on the steps of the logging thread until nothing is outstanding. */
  function Outstanding(s: State): nat {
    |s.batch| + 5 * |s.pending| +
    match s.logger
    case Writing(_) => 4
    case Waiting => 3
    case Sleeping => 2
    case _ => 1
  }

  lemma {:induction false} LogWrites(s: State)
    requires Phase(s) && s.control.Running? && s.batch + s.pending != []
    ensures var n := LogStep(s, true);
            && Outstanding(n) < Outstanding(s) && n.control.Running? && n.appended == s.appended
            && n.session.file + (n.batch + n.pending) == s.session.file + (s.batch + s.pending)
  {
    var n := LogStep(s, true);
    if s.logger.Writing? && s.batch != [] {
      assert s.batch == [s.batch[0]] + s.batch[1..];
    } else if s.logger.Swapping? {
      assert n.batch + n.pending == s.batch + s.pending;
    }
  }

  lemma {:induction false} LogWritesAll(s: State) returns (steps: seq<Step>)
    requires Phase(s) && s.control.Running?
    ensures |steps| <= Outstanding(s) && forall i :: 0 <= i < |steps| ==> steps[i] == Log(true)
    ensures var n := Run(s, steps);
            && n.control.Running? && n.appended == s.appended && n.batch == [] && n.pending == []
            && n.session.file == s.session.file + (s.batch + s.pending)
    decreases Outstanding(s)
  {
    if s.batch == [] && s.pending == [] {
      steps := [];
      assert s.session.file + ([] + []) == s.session.file;
    } else {
      LogWrites(s);
      LogKeepsPhase(s, true);
      var rest := LogWritesAll(LogStep(s, true));
      RunCons(s, Log(true), rest);
      steps := [Log(true)] + rest;
    }
  }

  /** From every reachable state of a running session, wherever its logging thread is, that thread's steps
      alone, its waits timing out, bring everything that is outstanding into the file in order. */
  lemma {:induction false} RunningLogsEverything(steps: seq<Step>) returns (more: seq<Step>)
    requires Run(Init(), steps).control.Running?
    ensures forall i :: 0 <= i < |more| ==> more[i] == Log(true)
    ensures var s := Run(Init(), steps);
            var n := Run(s, more);
            && |more| <= |s.batch| + 5 * |s.pending| + 4
            && n.control.Running? && n.batch == [] && n.pending == []
            && n.session.file == s.session.file + (s.batch + s.pending)
  {
    Reachable(steps);
    more := LogWritesAll(Run(Init(), steps));
  }

  // ---------------------------------------------------------------------------------------------
  // Events from an earlier session

  ghost predicate AllFrom(es: seq<Event>, k: nat) { forall i :: 0 <= i < |es| ==> es[i].checkedIn == k }

  /** Nothing on its way to the file of the open session comes from an earlier one. */
  ghost predicate Fresh(s: State) {
    && (forall t <- s.armed :: s.armed[t].checkedIn == |s.past|)
    && AllFrom(s.pending, |s.past|) && AllFrom(s.batch, |s.past|) && AllFrom(s.session.file, |s.past|)
  }

  predicate Opened(c: Control) { !c.Stopped? && !c.Clearing? }

  lemma {:induction false} LogKeepsFresh(s: State, timeout: bool)
    requires Fresh(s)
    ensures var n := LogStep(s, timeout); Fresh(n) && n.past == s.past && n.control == s.control
  {
    var n := LogStep(s, timeout);
    LogIsOneOf(s, timeout, n);
    FreshAfter(s, n);
  }

  lemma {:induction false} FreshAfter(s: State, n: State)
    requires Fresh(s) && (Swaps(s, n) || WritesOne(s, n) || OnlyMoves(s, n))
    ensures Fresh(n)
  {
    if WritesOne(s, n) {
      WriteKeepsFresh(s.batch, s.session.file, |s.past|);
    }
  }

  lemma {:induction false} WriteKeepsFresh(batch: seq<Event>, file: seq<Event>, k: nat)
    requires batch != [] && AllFrom(batch, k) && AllFrom(file, k)
    ensures AllFrom(batch[1..], k) && AllFrom(file + [batch[0]], k)
  {
  }

  lemma {:induction false} ProducerKeepsFresh(s: State, step: Step)
    requires Fresh(s)
    ensures var n := ProducerStep(s, step); Fresh(n) && n.past == s.past && n.control == s.control
  {
  }

  lemma {:induction false} ControlKeepsFresh(s: State, step: Step)
    requires Fresh(s) && Opened(s.control)
    ensures var n := ControlStep(s, step);
            if n.past == s.past then Fresh(n) && Opened(n.control) else n.past == s.past + [s.session]
  {
  }

  lemma {:induction false} StepKeepsFresh(s: State, step: Step)
    requires Fresh(s) && Opened(s.control)
    ensures var n := Next(s, step);
            if n.past == s.past then Fresh(n) && Opened(n.control) else n.past == s.past + [s.session]
  {
    match step
    case Check(_, _) => ProducerKeepsFresh(s, step);
    case Append(_) => ProducerKeepsFresh(s, step);
    case Log(timeout) => LogKeepsFresh(s, timeout);
    case _ => ControlKeepsFresh(s, step);
  }

  lemma {:induction false} StepKeepsPast(s: State, step: Step)
    ensures s.past <= Next(s, step).past
  {
  }

  lemma {:induction false} PastGrows(s: State, steps: seq<Step>)
    ensures s.past <= Run(s, steps).past
    decreases |steps|
  {
    if steps == [] {
    } else {
      var n, rest := Next(s, steps[0]), steps[1..];
      StepKeepsPast(s, steps[0]);
      PastGrows(n, rest);
      assert Run(s, steps) == Run(n, rest);
    }
  }

  /** What the session open in `s` has written after more steps, whether it is still open or over. */
  function Written(s: State, more: seq<Step>): seq<Event> {
    PastGrows(s, more);
    var n := Run(s, more);
    if |n.past| == |s.past| then n.session.file else n.past[|s.past|].file
  }

  lemma {:induction false} FreshSession(s: State, more: seq<Step>)
    requires Fresh(s) && Opened(s.control)
    ensures AllFrom(Written(s, more), |s.past|)
    decreases |more|
  {
    if more == [] {
    } else {
      var n, rest := Next(s, more[0]), more[1..];
      StepKeepsFresh(s, more[0]);
      assert Run(s, more) == Run(n, rest);
      if n.past == s.past {
        FreshSession(n, rest);
        assert Written(s, more) == Written(n, rest);
      } else {
        PastGrows(n, rest);
        assert n.past[|s.past|] == s.session;
      }
    }
  }

  /** A session that has written nothing, with one event in flight or pending. */
  ghost predicate Stage(s: State, c: Control, t: Thread, e: Event, inFlight: bool, past: seq<Session>) {
    Inv(s) && AtStage(s, c, t, e, inFlight, past)
  }

  ghost predicate AtStage(s: State, c: Control, t: Thread, e: Event, inFlight: bool, past: seq<Session>) {
    && s.control == c && s.past == past && s.session.file == []
    && (InSession(c) ==> s.logger.Waiting?)
    && (if inFlight then s.pending == [] && t in s.armed && s.armed[t] == e else s.pending == [e])
  }

  lemma {:induction false} StageMoves(s: State, step: Step, c: Control, t: Thread, e: Event, inFlight: bool)
    requires Phase(s) && AtStage(s, c, t, e, inFlight, s.past)
    requires (step, c) == (Activate, Activating) || (step, c) == (StartThread, Starting)
             || (step, c) == (BeginStop, Running) || (step, c) == (Signal, Signalling)
    ensures var d := if step.Activate? then Starting else if step.StartThread? then Running
                     else if step.BeginStop? then Signalling else Joining;
            AtStage(ControlStep(s, step), d, t, e, inFlight, s.past)
  {
  }

  lemma {:induction false} StageControl(s: State, step: Step, c: Control, t: Thread, e: Event, inFlight: bool)
    requires Stage(s, c, t, e, inFlight, s.past)
    requires (step, c) == (Activate, Activating) || (step, c) == (StartThread, Starting)
             || (step, c) == (BeginStop, Running) || (step, c) == (Signal, Signalling)
    ensures var d := if step.Activate? then Starting else if step.StartThread? then Running
                     else if step.BeginStop? then Signalling else Joining;
            Stage(Next(s, step), d, t, e, inFlight, s.past)
  {
    StageMoves(s, step, c, t, e, inFlight);
    StepKeepsInv(s, step);
  }

  lemma {:induction false} StageAppend(s: State, t: Thread, e: Event)
    requires Stage(s, Running, t, e, true, s.past)
    ensures Stage(Next(s, Append(t)), Running, t, e, false, s.past)
  {
    StepKeepsInv(s, Append(t));
  }

  lemma {:induction false} Prepend(s: State, a: Step, n: State, rest: seq<Step>) returns (steps: seq<Step>)
    requires n == Next(s, a)
    ensures Run(s, steps) == Run(n, rest)
  {
    steps := [a] + rest;
    RunCons(s, a, rest);
  }

  /** From its activation to its shutdown, a session in which one producer in flight appends. */
  lemma {:induction false} AppendAndSignal(s: State, t: Thread, e: Event) returns (s3: State, s5: State)
    requires Stage(s, Activating, t, e, true, s.past)
    ensures s3 == Next(Next(Next(s, Activate), StartThread), Append(t))
    ensures s5 == Next(Next(s3, BeginStop), Signal) && Stage(s5, Joining, t, e, false, s.past)
  {
    StageControl(s, Activate, Activating, t, e, true);
    var s1 := Next(s, Activate);
    StageControl(s1, StartThread, Starting, t, e, true);
    var s2 := Next(s1, StartThread);
    StageAppend(s2, t, e);
    s3 := Next(s2, Append(t));
    StageControl(s3, BeginStop, Running, t, e, false);
    var s4 := Next(s3, BeginStop);
    StageControl(s4, Signal, Signalling, t, e, false);
    s5 := Next(s4, Signal);
  }

  /** Clearing the queue does not reach a producer that has passed the fast path and not yet appended:
      its event, of an earlier session, can be all that the new session writes. */
  lemma {:induction false} InFlightEventIsWritten(s: State, t: Thread) returns (steps: seq<Step>)
    requires Inv(s) && s.control.Activating? && s.session.file == [] && s.pending == [] && t in s.armed
    ensures s.armed[t].checkedIn < |s.past|
    ensures |Run(s, steps).past| == |s.past| + 1 && Written(s, steps) == [s.armed[t]]
  {
    var e := s.armed[t];
    var s3, s5 := AppendAndSignal(s, t, e);
    assert Outcome(s5) == [e];
    steps := StopCompletes(s5);
    steps := Prepend(Next(s3, BeginStop), Signal, s5, steps);
    steps := Prepend(s3, BeginStop, Next(s3, BeginStop), steps);
    steps := Prepend(Next(Next(s, Activate), StartThread), Append(t), s3, steps);
    steps := Prepend(Next(s, Activate), StartThread, Next(Next(s, Activate), StartThread), steps);
    steps := Prepend(s, Activate, Next(s, Activate), steps);
  }

  /** Every continuation of the session opened in `s` writes only events of that session. */
  ghost predicate WritesOnlyItsOwn(s: State) {
    forall more: seq<Step> :: AllFrom(Written(s, more), |s.past|)
  }

  /** For every run that is about to clear the queue: the session being started writes only events of
      its own, whatever happens afterwards, if and only if no producer is in flight. */
  lemma {:induction false} NoStaleEventsIff(steps: seq<Step>)
    requires Run(Init(), steps).control.Clearing?
    ensures var s := Run(Init(), steps);
            WritesOnlyItsOwn(Next(s, Clear)) <==> s.armed == map[]
  {
    var s := Run(Init(), steps);
    Reachable(steps);
    StepKeepsInv(s, Clear);
    var n := Next(s, Clear);
    if s.armed == map[] {
      forall more: seq<Step> ensures AllFrom(Written(n, more), |n.past|) {
        FreshSession(n, more);
      }
    } else {
      var t :| t in s.armed;
      var more := InFlightEventIsWritten(n, t);
      assert Written(n, more)[0] == s.armed[t];
      assert !AllFrom(Written(n, more), |n.past|);
    }
  }

  /** `steps` lead from the start to a state in control position `c` with the producers `armed`. */
  ghost predicate LeadsTo(steps: seq<Step>, c: Control, armed: map<Thread, Event>, past: nat) {
    var s := Run(Init(), steps);
    s.control == c && s.armed == armed && |s.past| == past
  }

  lemma {:induction false} RunConcat(s: State, a: seq<Step>, b: seq<Step>)
    ensures Run(s, a + b) == Run(Run(s, a), b)
    decreases |a|
  {
    if a == [] {
      assert a + b == b;
    } else {
      assert (a + b)[1..] == a[1..] + b;
      RunConcat(Next(s, a[0]), a[1..], b);
    }
  }

  lemma {:induction false} OneMore(steps: seq<Step>, a: Step)
    ensures Run(Init(), steps + [a]) == Next(Run(Init(), steps), a)
  {
    RunConcat(Init(), steps, [a]);
    RunCons(Run(Init(), steps), a, []);
    assert [a] + [] == [a];
  }

  /** The control thread goes from one position to the next. */
  lemma {:induction false} Advance(steps: seq<Step>, a: Step, c: Control, armed: map<Thread, Event>, past: nat)
    requires LeadsTo(steps, c, armed, past)
    requires (a, c) in {(BeginStart, Stopped), (Clear, Clearing), (Activate, Activating), (StartThread, Starting),
                        (BeginStop, Running), (Signal, Signalling)}
    ensures var d := match a
                     case BeginStart => Clearing
                     case Clear => Activating
                     case Activate => Starting
                     case StartThread => Running
                     case BeginStop => Signalling
                     case _ => Joining;
            LeadsTo(steps + [a], d, armed, past)
  {
    Reachable(steps);
    OneMore(steps, a);
  }

  /** Such a run exists: a producer passes the fast path in the first session and has not appended when
      the second one is about to clear the queue. */
  lemma {:induction false} ProducerInFlightAtClear(t: Thread, payload: int) returns (steps: seq<Step>)
    ensures LeadsTo(steps, Clearing, map[t := Event(payload, 0)], 1)
  {
    steps := [];
    var none: map<Thread, Event> := map[];
    Advance(steps, BeginStart, Stopped, none, 0);
    steps := steps + [BeginStart];
    Advance(steps, Clear, Clearing, none, 0);
    steps := steps + [Clear];
    Advance(steps, Activate, Activating, none, 0);
    steps := steps + [Activate];
    Advance(steps, StartThread, Starting, none, 0);
    steps := steps + [StartThread];
    steps := ArmOne(steps, t, payload);
    steps := StopSession(steps, map[t := Event(payload, 0)], 0);
    Advance(steps, BeginStart, Stopped, map[t := Event(payload, 0)], 1);
    steps := steps + [BeginStart];
  }

  lemma {:induction false} ArmOne(before: seq<Step>, t: Thread, payload: int) returns (steps: seq<Step>)
    requires LeadsTo(before, Running, map[], 0)
    ensures LeadsTo(steps, Running, map[t := Event(payload, 0)], 0)
  {
    Reachable(before);
    OneMore(before, Check(t, payload));
    steps := before + [Check(t, payload)];
  }

  lemma {:induction false} StopSession(before: seq<Step>, armed: map<Thread, Event>, past: nat) returns (steps: seq<Step>)
    requires LeadsTo(before, Running, armed, past)
    ensures LeadsTo(steps, Stopped, armed, past + 1)
  {
    Advance(before, BeginStop, Running, armed, past);
    steps := before + [BeginStop];
    Advance(steps, Signal, Signalling, armed, past);
    steps := steps + [Signal];
    Reachable(steps);
    var rest := StopCompletes(Run(Init(), steps));
    RunConcat(Init(), steps, rest);
    steps := steps + rest;
  }

  /** So a session can write an event of an earlier one: from the start, for any producer and event. */
  lemma {:induction false} StaleEventIsWritten(t: Thread, payload: int) returns (steps: seq<Step>)
    ensures var n := Run(Init(), steps); |n.past| == 2 && n.past[1].file == [Event(payload, 0)]
  {
    steps := ProducerInFlightAtClear(t, payload);
    Reachable(steps);
    var s := Run(Init(), steps);
    StepKeepsInv(s, Clear);
    OneMore(steps, Clear);
    var more := InFlightEventIsWritten(Next(s, Clear), t);
    RunConcat(Init(), steps + [Clear], more);
    steps := steps + [Clear] + more;
  }
}
