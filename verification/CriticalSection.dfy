/** The recursive critical section built from a queue counter, a compare-and-swap fast path,
    a hand-off semaphore and a recursion count (the Mac path of criticalsection.cc).

    Every read, write or atomic operation on a shared field is one step of one thread, and the
    steps of any number of threads interleave freely. An increment or decrement of recursion_ or
    recursion_count_, which the source makes only while holding the lock, reads and writes in one
    step. A program counter names the operation a thread performs next; the comments give the source
    line. */
module CriticalSection {

  /** A PlatformThreadRef; the value 0 stands for "no thread" in the owner fields. */
  type Thread = t: int | 0 < t witness 1

  const NO_THREAD := 0
  const SPIN_COUNT: nat := 3000

  /** The next operation of a call of Enter. */
  datatype EnterPc =
    | EnterReadOwner(spin: nat)   // 65
    | EnterLoad(spin: nat)        // 66
    | EnterCas(spin: nat)         // 67
    | EnterYield(spin: nat)       // 78-79
    | EnterReenter                // 73
    | EnterQueue                  // 81
    | EnterCheckNotOwner          // 84
    | EnterWait                   // 86
    | EnterCheckNoOwner           // 87
    | EnterCheckNoRecursion       // 88
    | EnterSetOwner               // 91
    | EnterCount                  // 92

  datatype TryPc =
    | TryReadOwner                // 115
    | TryCas                      // 116
    | TrySetOwner                 // 118
    | TryCheckNoRecursion         // 119
    | TryReenter                  // 121
    | TryCount                    // 123

  /** The debug epilogue of Enter and TryEnter. */
  datatype DebugPc =
    | DebugTest                   // 99, 129
    | DebugCheckNoThread          // 100, 130
    | DebugSetThread              // 101, 131
    | DebugCheckThread            // 103, 133
    | DebugCount                  // 105, 135

  datatype LeavePc =
    | LeaveCheckThread            // 141
    | LeaveDebugCount             // 146
    | LeaveCheckCount             // 147
    | LeaveTestCount              // 148
    | LeaveClearThread            // 149
    | LeaveCheckOwner             // 152
    | LeaveCheckRecursion         // 153
    | LeaveCount                  // 154
    | LeaveTestRecursion          // 155
    | LeaveClearOwner             // 156
    | LeaveRelease                // 158, the decrement
    | LeaveReadRecursion          // 158, the second operand
    | LeaveSignal                 // 159

  datatype Pc = Idle | Enter(e: EnterPc) | TryEnter(y: TryPc) | Debug(d: DebugPc) | Leave(v: LeavePc)

  /** `depth` is the number of acquisitions the client holds: successful Enter and TryEnter calls
      that have returned, less the calls of Leave. */
  datatype Local = Local(pc: Pc, depth: nat)

  /** The fields of the critical section, the value of its semaphore, and the state of every thread. */
  datatype State = State(lockQueue: int, owner: int, recursion: int, tokens: nat,
                         debugThread: int, debugCount: int, locals: map<Thread, Local>)

  /** What an idle thread does next. */
  datatype Call = CallEnter | CallTryEnter | CallLeave

  predicate Init(s: State) {
    && s.lockQueue == 0 && s.owner == NO_THREAD && s.recursion == 0 && s.tokens == 0
    && s.debugThread == NO_THREAD && s.debugCount == 0
    && forall t :: t in s.locals ==> s.locals[t] == Local(Idle, 0)
  }

  /** A thread may act unless it waits for the semaphore without a token; only a thread with an
      acquisition to give back calls Leave. */
  predicate CanAct(s: State, l: Local, call: Call) {
    && (l.pc == Idle && call == CallLeave ==> l.depth > 0)
    && (l.pc == Enter(EnterWait) ==> s.tokens > 0)
  }

  /** The shared fields after an operation and the acting thread's next operation. */
  datatype Outcome = Outcome(s: State, pc: Pc)

  function StartCall(call: Call): Pc {
    match call
    case CallEnter => Enter(EnterReadOwner(SPIN_COUNT))
    case CallTryEnter => TryEnter(TryReadOwner)
    case CallLeave => Leave(LeaveCheckThread)
  }

  function ActEnter(s: State, t: Thread, e: EnterPc): Outcome
    requires e == EnterWait ==> s.tokens > 0
  {
    match e
    case EnterReadOwner(spin) => Outcome(s, Enter(if s.owner != t then EnterLoad(spin) else EnterReenter))
    case EnterLoad(spin) => Outcome(s, Enter(if s.lockQueue == 0 then EnterCas(spin) else EnterYield(spin)))
    case EnterCas(spin) =>
      if s.lockQueue == 0 then Outcome(s.(lockQueue := 1), Enter(EnterSetOwner)) else Outcome(s, Enter(EnterYield(spin)))
    case EnterYield(spin) => Outcome(s, Enter(if spin > 1 then EnterReadOwner(spin - 1) else EnterQueue))
    case EnterReenter => Outcome(s.(lockQueue := s.lockQueue + 1), Enter(EnterSetOwner))
    case EnterQueue =>
      Outcome(s.(lockQueue := s.lockQueue + 1), Enter(if s.lockQueue + 1 > 1 then EnterCheckNotOwner else EnterSetOwner))
    case EnterCheckNotOwner => Outcome(s, Enter(EnterWait))
    case EnterWait => Outcome(s.(tokens := s.tokens - 1), Enter(EnterCheckNoOwner))
    case EnterCheckNoOwner => Outcome(s, Enter(EnterCheckNoRecursion))
    case EnterCheckNoRecursion => Outcome(s, Enter(EnterSetOwner))
    case EnterSetOwner => Outcome(s.(owner := t), Enter(EnterCount))
    case EnterCount => Outcome(s.(recursion := s.recursion + 1), Debug(DebugTest))
  }

  function ActTry(s: State, t: Thread, y: TryPc): Outcome {
    match y
    case TryReadOwner => Outcome(s, TryEnter(if s.owner != t then TryCas else TryReenter))
    case TryCas => if s.lockQueue == 0 then Outcome(s.(lockQueue := 1), TryEnter(TrySetOwner)) else Outcome(s, Idle)
    case TrySetOwner => Outcome(s.(owner := t), TryEnter(TryCheckNoRecursion))
    case TryCheckNoRecursion => Outcome(s, TryEnter(TryCount))
    case TryReenter => Outcome(s.(lockQueue := s.lockQueue + 1), TryEnter(TryCount))
    case TryCount => Outcome(s.(recursion := s.recursion + 1), Debug(DebugTest))
  }

  function ActDebug(s: State, t: Thread, d: DebugPc): Outcome {
    match d
    case DebugTest => Outcome(s, Debug(if s.debugCount == 0 then DebugCheckNoThread else DebugCheckThread))
    case DebugCheckNoThread => Outcome(s, Debug(DebugSetThread))
    case DebugSetThread => Outcome(s.(debugThread := t), Debug(DebugCount))
    case DebugCheckThread => Outcome(s, Debug(DebugCount))
    case DebugCount => Outcome(s.(debugCount := s.debugCount + 1), Idle)
  }

  function ActLeave(s: State, v: LeavePc): Outcome {
    match v
    case LeaveCheckThread => Outcome(s, Leave(LeaveDebugCount))
    case LeaveDebugCount => Outcome(s.(debugCount := s.debugCount - 1), Leave(LeaveCheckCount))
    case LeaveCheckCount => Outcome(s, Leave(LeaveTestCount))
    case LeaveTestCount => Outcome(s, Leave(if s.debugCount == 0 then LeaveClearThread else LeaveCheckOwner))
    case LeaveClearThread => Outcome(s.(debugThread := NO_THREAD), Leave(LeaveCheckOwner))
    case LeaveCheckOwner => Outcome(s, Leave(LeaveCheckRecursion))
    case LeaveCheckRecursion => Outcome(s, Leave(LeaveCount))
    case LeaveCount => Outcome(s.(recursion := s.recursion - 1), Leave(LeaveTestRecursion))
    case LeaveTestRecursion => Outcome(s, Leave(if s.recursion == 0 then LeaveClearOwner else LeaveRelease))
    case LeaveClearOwner => Outcome(s.(owner := NO_THREAD), Leave(LeaveRelease))
    case LeaveRelease =>
      Outcome(s.(lockQueue := s.lockQueue - 1), if s.lockQueue - 1 > 0 then Leave(LeaveReadRecursion) else Idle)
    case LeaveReadRecursion => Outcome(s, if s.recursion == 0 then Leave(LeaveSignal) else Idle)
    case LeaveSignal => Outcome(s.(tokens := s.tokens + 1), Idle)
  }

  /** One operation of thread `t`. */
  function Act(s: State, t: Thread, l: Local, call: Call): Outcome
    requires CanAct(s, l, call)
  {
    match l.pc
    case Idle => Outcome(s, StartCall(call))
    case Enter(e) => ActEnter(s, t, e)
    case TryEnter(y) => ActTry(s, t, y)
    case Debug(d) => ActDebug(s, t, d)
    case Leave(v) => ActLeave(s, v)
  }

  /** A call of Leave gives one acquisition back; the end of the epilogue returns one to the client. */
  function DepthAfter(l: Local, call: Call): nat
    requires l.pc == Idle && call == CallLeave ==> l.depth > 0
  {
    if l.pc == Idle && call == CallLeave then l.depth - 1
    else if l.pc == Debug(DebugCount) then l.depth + 1
    else l.depth
  }

  predicate Enabled(s: State, t: Thread, call: Call) {
    t in s.locals && CanAct(s, s.locals[t], call)
  }

  /** One step of the system: thread `t` acts. */
  function Step(s: State, t: Thread, call: Call): State
    requires Enabled(s, t, call)
  {
    var l := s.locals[t];
    var out := Act(s, t, l, call);
    out.s.(locals := s.locals[t := Local(out.pc, DepthAfter(l, call))])
  }

  /** A run from the initial state, with the thread and call of each step. */
  datatype Move = Move(thread: Thread, call: Call)

  predicate Run(states: seq<State>, moves: seq<Move>) {
    && |states| == |moves| + 1
    && Init(states[0])
    && forall i :: 0 <= i < |moves| ==>
         && Enabled(states[i], moves[i].thread, moves[i].call)
         && states[i + 1] == Step(states[i], moves[i].thread, moves[i].call)
  }

  /** The condition of the debug check thread `t` is about to evaluate. */
  predicate CheckPasses(s: State, t: Thread, pc: Pc) {
    match pc
    case Enter(EnterCheckNotOwner) => s.owner != t
    case Enter(EnterCheckNoOwner) => s.owner == NO_THREAD
    case Enter(EnterCheckNoRecursion) => s.recursion == 0
    case TryEnter(TryCheckNoRecursion) => s.recursion == 0
    case Debug(DebugCheckNoThread) => s.debugThread == NO_THREAD
    case Debug(DebugCheckThread) => s.debugThread == t
    case Leave(LeaveCheckThread) => s.debugThread == t
    case Leave(LeaveCheckCount) => s.debugCount >= 0
    case Leave(LeaveCheckOwner) => s.owner == t
    case Leave(LeaveCheckRecursion) => s.recursion >= 0
    case _ => true
  }

  // ---------------------------------------------------------------------------------------------
  // Accounting

  /** One acquisition is in flight: taken but not yet returned to the client, or being given back. */
  predicate InFlight(pc: Pc) {
    match pc
    case Idle => false
    case Enter(e) => e.EnterCheckNoOwner? || e.EnterCheckNoRecursion? || e.EnterSetOwner? || e.EnterCount?
    case TryEnter(y) => y.TrySetOwner? || y.TryCheckNoRecursion? || y.TryCount?
    case Debug(_) => true
    case Leave(v) => !v.LeaveReadRecursion? && !v.LeaveSignal?
  }

  predicate IsQueued(pc: Pc) {
    pc == Enter(EnterCheckNotOwner) || pc == Enter(EnterWait)
  }

  /** The holder's nesting depth: acquisitions the client holds plus the one in flight. */
  function Load(l: Local): nat {
    l.depth + (if InFlight(l.pc) then 1 else 0)
  }

  predicate Holds(s: State, t: Thread) {
    t in s.locals && Load(s.locals[t]) > 0
  }

  /** Threads that raised the queue counter and wait for a hand-off. */
  function Queue(s: State): set<Thread> {
    set t | t in s.locals && IsQueued(s.locals[t].pc)
  }

  predicate IsReleasing(l: Local) {
    l.depth == 0 && (l.pc == Leave(LeaveReadRecursion) || l.pc == Leave(LeaveSignal))
  }

  /** Threads that gave up the lock and still owe a signal. */
  function Releasers(s: State): set<Thread> {
    set t | t in s.locals && IsReleasing(s.locals[t])
  }

  /** How many threads are queued, and how many owe a signal. */
  datatype Tally = Tally(queued: nat, releasing: nat)

  function TallyOf(s: State): Tally { Tally(|Queue(s)|, |Releasers(s)|) }

  // What the shared fields record of the acquisition in flight.

  /** recursion_ counts it. */
  predicate RecursionCounts(pc: Pc) {
    match pc
    case Debug(_) => true
    case Leave(v) => !(v.LeaveTestRecursion? || v.LeaveClearOwner? || v.LeaveRelease? || v.LeaveReadRecursion?)
    case _ => false
  }

  /** owning_thread_ names its thread. */
  predicate OwnerRecorded(pc: Pc) {
    match pc
    case Idle => false
    case Enter(e) => e.EnterCount?
    case TryEnter(y) => y.TryCheckNoRecursion? || y.TryCount?
    case Debug(_) => true
    case Leave(v) => !v.LeaveRelease?
  }

  /** recursion_count_ counts it. */
  predicate DebugCounts(pc: Pc) {
    pc.Leave? && (pc.v.LeaveCheckThread? || pc.v.LeaveDebugCount?)
  }

  /** thread_ names its thread. */
  predicate DebugRecorded(pc: Pc) {
    match pc
    case Debug(d) => d.DebugCount?
    case Leave(v) =>
      v.LeaveCheckThread? || v.LeaveDebugCount? || v.LeaveCheckCount? || v.LeaveTestCount? || v.LeaveClearThread?
    case _ => false
  }

  /** Facts about one thread's own state that no other thread can disturb. */
  predicate LocalInv(l: Local) {
    match l.pc
    case Idle => true
    case Enter(e) =>
      if e.EnterReenter? then l.depth > 0
      else e.EnterReadOwner? || e.EnterSetOwner? || e.EnterCount? || l.depth == 0
    case TryEnter(y) =>
      if y.TryReenter? then l.depth > 0 else y.TryReadOwner? || y.TryCount? || l.depth == 0
    case Debug(d) =>
      if d.DebugCheckThread? then l.depth > 0
      else d.DebugCheckNoThread? || d.DebugSetThread? ==> l.depth == 0
    case Leave(v) => v.LeaveClearThread? || v.LeaveClearOwner? || v.LeaveSignal? ==> l.depth == 0
  }

  /** The shared fields while nobody holds the lock, given the tally `n`. */
  predicate FreeFields(s: State, n: Tally) {
    && s.owner == NO_THREAD && s.recursion == 0 && s.debugThread == NO_THREAD && s.debugCount == 0
    && s.lockQueue == n.queued
    && s.tokens + n.releasing == if n.queued == 0 then 0 else 1
  }

  /** The owner fields while thread `h` in local state `l` holds the lock. */
  predicate HeldFields(s: State, h: Thread, l: Local) {
    && s.owner == (if l.depth > 0 || OwnerRecorded(l.pc) then h else NO_THREAD)
    && s.recursion == l.depth + (if RecursionCounts(l.pc) then 1 else 0)
    && s.debugThread == (if l.depth > 0 || DebugRecorded(l.pc) then h else NO_THREAD)
    && s.debugCount == l.depth + (if DebugCounts(l.pc) then 1 else 0)
  }

  predicate HeldCounts(s: State, l: Local, n: Tally) {
    s.lockQueue == Load(l) + n.queued && s.tokens == 0 && n.releasing == 0
  }

  predicate FreeInv(s: State) {
    && (forall t :: t in s.locals ==> Load(s.locals[t]) == 0)
    && FreeFields(s, TallyOf(s))
  }

  predicate HeldInv(s: State, h: Thread) {
    && h in s.locals && Load(s.locals[h]) > 0
    && (forall t :: t in s.locals && t != h ==> Load(s.locals[t]) == 0)
    && HeldFields(s, h, s.locals[h])
    && HeldCounts(s, s.locals[h], TallyOf(s))
  }

  ghost predicate Inv(s: State) {
    && (forall t :: t in s.locals ==> LocalInv(s.locals[t]))
    && (FreeInv(s) || exists h :: HeldInv(s, h))
  }

  // ---------------------------------------------------------------------------------------------
  // Every operation keeps the accounting

  /** How the tally changes when one thread moves from `l` to `l'`. */
  predicate Counts(l: Local, l': Local, n: Tally, n': Tally) {
    && n'.queued == n.queued + (if IsQueued(l'.pc) then 1 else 0) - (if IsQueued(l.pc) then 1 else 0)
    && n'.releasing == n.releasing + (if IsReleasing(l') then 1 else 0) - (if IsReleasing(l) then 1 else 0)
    && (IsQueued(l.pc) ==> n.queued > 0) && (IsReleasing(l) ==> n.releasing > 0)
  }

  /** An operation on a free lock leaves it free or makes the acting thread the holder. */
  lemma {:induction false} ActOnFree(s: State, t: Thread, l: Local, call: Call, out: Outcome, l': Local, n: Tally, n': Tally)
    requires CanAct(s, l, call) && out == Act(s, t, l, call) && l' == Local(out.pc, DepthAfter(l, call))
    requires LocalInv(l) && Load(l) == 0 && FreeFields(s, n) && Counts(l, l', n, n')
    ensures LocalInv(l')
    ensures Load(l') == 0 ==> FreeFields(out.s, n')
    ensures Load(l') > 0 ==> HeldFields(out.s, t, l') && HeldCounts(out.s, l', n')
  {
  }

  /** An operation of the holder inside Enter or TryEnter, or a call it starts, keeps it the holder. */
  lemma {:induction false} HolderEnters(s: State, h: Thread, l: Local, call: Call, out: Outcome, l': Local, n: Tally, n': Tally)
    requires CanAct(s, l, call) && out == Act(s, h, l, call) && l' == Local(out.pc, DepthAfter(l, call))
    requires LocalInv(l) && Load(l) > 0 && HeldFields(s, h, l) && HeldCounts(s, l, n) && Counts(l, l', n, n')
    requires !l.pc.Leave?
    ensures LocalInv(l') && Load(l') > 0 && HeldFields(out.s, h, l') && HeldCounts(out.s, l', n')
  {
  }

  /** An operation of the holder inside Leave keeps it the holder or frees the lock. */
  lemma {:induction false} HolderLeaves(s: State, h: Thread, l: Local, call: Call, out: Outcome, l': Local, n: Tally, n': Tally)
    requires l.pc.Leave? && out == ActLeave(s, l.pc.v) && l' == Local(out.pc, l.depth)
    requires LocalInv(l) && Load(l) > 0 && HeldFields(s, h, l) && HeldCounts(s, l, n) && Counts(l, l', n, n')
    ensures LocalInv(l')
    ensures Load(l') == 0 ==> FreeFields(out.s, n')
    ensures Load(l') > 0 ==> HeldFields(out.s, h, l') && HeldCounts(out.s, l', n')
  {
  }

  /** An operation of any other thread leaves the holder in possession. */
  lemma {:induction false} ActOfOther(s: State, h: Thread, lh: Local, t: Thread, l: Local, call: Call, out: Outcome, l': Local,
                                      n: Tally, n': Tally)
    requires CanAct(s, l, call) && out == Act(s, t, l, call) && l' == Local(out.pc, DepthAfter(l, call))
    requires h != t && LocalInv(l) && Load(l) == 0 && Load(lh) > 0
    requires HeldFields(s, h, lh) && HeldCounts(s, lh, n) && Counts(l, l', n, n')
    ensures LocalInv(l') && Load(l') == 0 && HeldFields(out.s, h, lh) && HeldCounts(out.s, lh, n')
  {
  }

  lemma CardinalityAfter<T>(a: set<T>, b: set<T>, x: T)
    requires a - {x} == b - {x}
    ensures |a| == |b| + (if x in a then 1 else 0) - (if x in b then 1 else 0)
  {
    assert a == (a - {x}) + if x in a then {x} else {};
    assert b == (b - {x}) + if x in b then {x} else {};
  }

  /** A step of `t` changes the queue and the releasers by at most `t`. */
  lemma CountsAfter(s: State, s': State, t: Thread)
    requires t in s.locals && t in s'.locals && s'.locals == s.locals[t := s'.locals[t]]
    ensures Counts(s.locals[t], s'.locals[t], TallyOf(s), TallyOf(s'))
  {
    CardinalityAfter(Queue(s'), Queue(s), t);
    CardinalityAfter(Releasers(s'), Releasers(s), t);
    assert IsQueued(s.locals[t].pc) ==> t in Queue(s);
    assert IsReleasing(s.locals[t]) ==> t in Releasers(s);
  }

  lemma {:induction false} FreeStep(s: State, t: Thread, call: Call)
    requires Enabled(s, t, call) && LocalInv(s.locals[t]) && FreeInv(s)
    ensures LocalInv(Step(s, t, call).locals[t])
    ensures FreeInv(Step(s, t, call)) || HeldInv(Step(s, t, call), t)
  {
    var s' := Step(s, t, call);
    CountsAfter(s, s', t);
    ActOnFree(s, t, s.locals[t], call, Act(s, t, s.locals[t], call), s'.locals[t], TallyOf(s), TallyOf(s'));
  }

  lemma {:induction false} HolderStep(s: State, h: Thread, call: Call)
    requires Enabled(s, h, call) && LocalInv(s.locals[h]) && HeldInv(s, h)
    ensures LocalInv(Step(s, h, call).locals[h])
    ensures FreeInv(Step(s, h, call)) || HeldInv(Step(s, h, call), h)
  {
    var s' := Step(s, h, call);
    CountsAfter(s, s', h);
    if s.locals[h].pc.Leave? {
      HolderLeaves(s, h, s.locals[h], call, Act(s, h, s.locals[h], call), s'.locals[h], TallyOf(s), TallyOf(s'));
    } else {
      HolderEnters(s, h, s.locals[h], call, Act(s, h, s.locals[h], call), s'.locals[h], TallyOf(s), TallyOf(s'));
    }
  }

  lemma {:induction false} OtherStep(s: State, h: Thread, t: Thread, call: Call)
    requires t != h && Enabled(s, t, call) && LocalInv(s.locals[t]) && HeldInv(s, h)
    ensures LocalInv(Step(s, t, call).locals[t])
    ensures HeldInv(Step(s, t, call), h)
  {
    var s' := Step(s, t, call);
    CountsAfter(s, s', t);
    ActOfOther(s, h, s.locals[h], t, s.locals[t], call, Act(s, t, s.locals[t], call), s'.locals[t], TallyOf(s), TallyOf(s'));
  }

  lemma {:induction false} StepKeepsInv(s: State, t: Thread, call: Call)
    requires Inv(s) && Enabled(s, t, call)
    ensures Inv(Step(s, t, call))
  {
    if FreeInv(s) {
      FreeStep(s, t, call);
    } else {
      var h :| HeldInv(s, h);
      if t == h { HolderStep(s, h, call); } else { OtherStep(s, h, t, call); }
    }
  }

  lemma {:induction false} RunKeepsInv(states: seq<State>, moves: seq<Move>, i: nat)
    requires Run(states, moves) && i < |states|
    ensures Inv(states[i])
  {
    if i == 0 {
      InitHasInv(states[0]);
    } else {
      RunKeepsInv(states, moves, i - 1);
      StepKeepsInv(states[i - 1], moves[i - 1].thread, moves[i - 1].call);
    }
  }

  lemma InitHasInv(s: State)
    requires Init(s)
    ensures Inv(s)
  {
    assert Queue(s) == {} && Releasers(s) == {};
    assert FreeInv(s);
  }

  // ---------------------------------------------------------------------------------------------
  // What holds in every state of every run

  /** At most one thread holds the lock. While it does, owning_thread_ and recursion_ name it and
      its depth whenever it is not inside a call. */
  lemma MutualExclusion(states: seq<State>, moves: seq<Move>, i: nat, t: Thread)
    requires Run(states, moves) && i < |states| && Holds(states[i], t)
    ensures forall u :: Holds(states[i], u) ==> u == t
    ensures var l := states[i].locals[t];
            && (l.depth > 0 || OwnerRecorded(l.pc) <==> states[i].owner == t)
            && states[i].recursion == l.depth + (if RecursionCounts(l.pc) then 1 else 0)
            && (l.pc == Idle ==> states[i].recursion == Load(l) == states[i].debugCount && states[i].debugThread == t)
  {
    RunKeepsInv(states, moves, i);
    var s := states[i];
    assert !FreeInv(s);
    var h :| HeldInv(s, h);
    assert t == h;
  }

  /** The next operation changes recursion_ or recursion_count_. */
  predicate ChangesCounter(pc: Pc) {
    match pc
    case Enter(e) => e.EnterCount?
    case TryEnter(y) => y.TryCount?
    case Debug(d) => d.DebugCount?
    case Leave(v) => v.LeaveCount? || v.LeaveDebugCount?
    case Idle => false
  }

  /** No two threads are ever about to change these counters, so nothing comes between the read and the
      write of such a change. */
  lemma {:induction false} CountersHaveOneWriter(states: seq<State>, moves: seq<Move>, i: nat, t: Thread, u: Thread)
    requires Run(states, moves) && i < |states| && t in states[i].locals && u in states[i].locals
    requires ChangesCounter(states[i].locals[t].pc) && ChangesCounter(states[i].locals[u].pc)
    ensures t == u
  {
    assert Holds(states[i], t) && Holds(states[i], u);
    MutualExclusion(states, moves, i, t);
  }

  /** Every debug check of the three operations holds whenever it is evaluated. */
  lemma ChecksPass(states: seq<State>, moves: seq<Move>, i: nat, t: Thread)
    requires Run(states, moves) && i < |states| && t in states[i].locals
    ensures CheckPasses(states[i], t, states[i].locals[t].pc)
  {
    RunKeepsInv(states, moves, i);
    var s := states[i];
    if !FreeInv(s) {
      var h :| HeldInv(s, h);
    }
  }

  /** lock_queue_ is the holder's depth plus the number of queued threads. Queued threads without
      a holder have exactly one hand-off coming: a semaphore token or a releaser that owes one.
      At any other time there is none. */
  lemma HandOffAccounting(states: seq<State>, moves: seq<Move>, i: nat)
    requires Run(states, moves) && i < |states|
    ensures var s := states[i];
            && (forall t :: Holds(s, t) ==>
                 s.lockQueue == Load(s.locals[t]) + |Queue(s)| && s.tokens + |Releasers(s)| == 0)
            && ((forall t :: !Holds(s, t)) ==>
                 s.lockQueue == |Queue(s)| && s.tokens + |Releasers(s)| == if Queue(s) == {} then 0 else 1)
  {
    RunKeepsInv(states, moves, i);
    var s := states[i];
    assert Queue(s) == {} <==> |Queue(s)| == 0;
    if !FreeInv(s) {
      var h :| HeldInv(s, h);
      assert Holds(s, h);
    }
  }

  /** recursion_, read after the decrement, is the reader's own remaining depth: nobody can have
      taken the lock in between. So the signal is sent exactly by a thread that freed the lock. */
  lemma RecursionReadIsStable(states: seq<State>, moves: seq<Move>, i: nat, t: Thread)
    requires Run(states, moves) && i < |states| && t in states[i].locals
    requires states[i].locals[t].pc == Leave(LeaveReadRecursion)
    ensures states[i].recursion == states[i].locals[t].depth
  {
    RunKeepsInv(states, moves, i);
    var s := states[i];
    assert IsReleasing(s.locals[t]) ==> t in Releasers(s);
    if !FreeInv(s) {
      var h :| HeldInv(s, h);
    }
  }

  /** While anyone is queued, both fast paths fail: no step of a compare-and-swap takes the lock. */
  lemma QueuedClosesFastPath(states: seq<State>, moves: seq<Move>, i: nat)
    requires Run(states, moves) && i < |moves| && Queue(states[i]) != {}
    requires var pc := states[i].locals[moves[i].thread].pc;
             pc == TryEnter(TryCas) || (pc.Enter? && pc.e.EnterCas?)
    ensures states[i].lockQueue != 0
    ensures !Holds(states[i + 1], moves[i].thread)
  {
    HandOffAccounting(states, moves, i);
    RunKeepsInv(states, moves, i);
    var s, t := states[i], moves[i].thread;
    assert LocalInv(s.locals[t]) && Load(s.locals[t]) == 0;
  }

  // ---------------------------------------------------------------------------------------------
  // Refinement: the steps implement a recursive lock

  /** The recursive lock as its clients see it. */
  datatype Lock = Free | Held(holder: Thread, times: nat)

  ghost predicate Represents(s: State, a: Lock) {
    match a
    case Free => forall t :: !Holds(s, t)
    case Held(h, d) => Holds(s, h) && Load(s.locals[h]) == d && forall t :: Holds(s, t) ==> t == h
  }

  /** What thread `t` may do to the abstract lock: nothing, take it when free, take it again or
      give it back once when it is the holder. */
  predicate LockStep(a: Lock, t: Thread, a': Lock) {
    || a' == a
    || (a == Free && a' == Held(t, 1))
    || (a.Held? && a.holder == t && a' == Held(t, a.times + 1))
    || (a.Held? && a.holder == t && a.times > 1 && a' == Held(t, a.times - 1))
    || (a == Held(t, 1) && a' == Free)
  }

  function Abstract(s: State, h: Thread): Lock {
    if Holds(s, h) then Held(h, Load(s.locals[h])) else Free
  }

  /** The next operation takes the lock: a compare-and-swap or an increment that finds the queue empty, the
      increment of the owner, or the end of a wait. */
  predicate Takes(s: State, pc: Pc) {
    match pc
    case Enter(e) =>
      if e.EnterCas? then s.lockQueue == 0 else if e.EnterQueue? then s.lockQueue <= 0 else e.EnterReenter? || e.EnterWait?
    case TryEnter(y) => if y.TryCas? then s.lockQueue == 0 else y.TryReenter?
    case _ => false
  }

  /** What the next operation of thread `t` in state `s` does to the abstract lock. */
  function LockAfter(a: Lock, s: State, t: Thread): Lock
    requires t in s.locals
  {
    var pc := s.locals[t].pc;
    if Takes(s, pc) then if a.Held? then Held(a.holder, a.times + 1) else Held(t, 1)
    else if pc == Leave(LeaveRelease) then if a.Held? && a.times > 1 then Held(a.holder, a.times - 1) else Free
    else a
  }

  /** The acting thread's load changes exactly when it takes the lock or gives it back. */
  lemma {:induction false} LoadChange(s: State, t: Thread, call: Call)
    requires Enabled(s, t, call) && LocalInv(s.locals[t])
    ensures Load(Step(s, t, call).locals[t])
         == Load(s.locals[t]) + (if Takes(s, s.locals[t].pc) then 1 else if s.locals[t].pc == Leave(LeaveRelease) then -1 else 0)
  {
  }

  lemma {:induction false} StepRefines(s: State, t: Thread, call: Call) returns (a: Lock, a': Lock)
    requires Inv(s) && Enabled(s, t, call)
    ensures Represents(s, a) && Represents(Step(s, t, call), a') && LockStep(a, t, a') && a' == LockAfter(a, s, t)
  {
    LoadChange(s, t, call);
    if FreeInv(s) {
      FreeStep(s, t, call);
      a, a' := Free, Abstract(Step(s, t, call), t);
    } else {
      var h :| HeldInv(s, h);
      if t == h { HolderStep(s, h, call); } else { OtherStep(s, h, t, call); }
      a, a' := Abstract(s, h), Abstract(Step(s, t, call), h);
    }
  }

  lemma RepresentsOne(s: State, a: Lock, b: Lock)
    requires Represents(s, a) && Represents(s, b)
    ensures a == b
  {
  }

  /** Every run of the threads is, step for step, a run of the abstract lock from Free. */
  lemma {:induction false} RunRefines(states: seq<State>, moves: seq<Move>, n: nat) returns (locks: seq<Lock>)
    requires Run(states, moves) && n < |states|
    ensures |locks| == n + 1 && locks[0] == Free
    ensures forall i :: 0 <= i <= n ==> Represents(states[i], locks[i])
    ensures forall i :: 0 <= i < n ==>
              LockStep(locks[i], moves[i].thread, locks[i + 1]) && locks[i + 1] == LockAfter(locks[i], states[i], moves[i].thread)
  {
    if n == 0 {
      locks := [Free];
    } else {
      var before := RunRefines(states, moves, n - 1);
      var next := RefineMove(states, moves, n - 1, before[n - 1]);
      locks := before + [next];
    }
  }

  lemma {:induction false} RefineMove(states: seq<State>, moves: seq<Move>, i: nat, a: Lock) returns (a': Lock)
    requires Run(states, moves) && i < |moves| && Represents(states[i], a)
    ensures Represents(states[i + 1], a') && LockStep(a, moves[i].thread, a')
    ensures a' == LockAfter(a, states[i], moves[i].thread)
  {
    RunKeepsInv(states, moves, i);
    var b;
    b, a' := StepRefines(states[i], moves[i].thread, moves[i].call);
    RepresentsOne(states[i], a, b);
  }

  // ---------------------------------------------------------------------------------------------
  // No lost wake-up: a hand-off can always be completed

  function StepAll(s: State, moves: seq<Move>): (r: State)
    requires AllEnabled(s, moves)
    decreases |moves|
  {
    if moves == [] then s else StepAll(Step(s, moves[0].thread, moves[0].call), moves[1..])
  }

  predicate AllEnabled(s: State, moves: seq<Move>)
    decreases |moves|
  {
    moves != [] ==>
      && Enabled(s, moves[0].thread, moves[0].call)
      && AllEnabled(Step(s, moves[0].thread, moves[0].call), moves[1..])
  }

  lemma OneMove(s: State, m: Move, rest: seq<Move>)
    requires Enabled(s, m.thread, m.call) && AllEnabled(Step(s, m.thread, m.call), rest)
    ensures AllEnabled(s, [m] + rest)
    ensures StepAll(s, [m] + rest) == StepAll(Step(s, m.thread, m.call), rest)
  {
    assert ([m] + rest)[1..] == rest;
  }

  lemma ReleaserReads(s: State, r: Thread, q: Thread)
    requires FreeInv(s) && q in Queue(s) && r in s.locals && s.locals[r] == Local(Leave(LeaveReadRecursion), 0)
    ensures Enabled(s, r, CallEnter)
    ensures var s' := Step(s, r, CallEnter); s'.locals[r] == Local(Leave(LeaveSignal), 0) && q in Queue(s')
  {
  }

  lemma ReleaserSignals(s: State, r: Thread, q: Thread)
    requires q in Queue(s) && r in s.locals && s.locals[r] == Local(Leave(LeaveSignal), 0)
    ensures Enabled(s, r, CallEnter)
    ensures var s' := Step(s, r, CallEnter); s'.tokens > 0 && q in Queue(s')
  {
  }

  lemma {:induction false} SignalAndTake(s: State, r: Thread, q: Thread) returns (moves: seq<Move>)
    requires q in Queue(s) && r in s.locals && s.locals[r] == Local(Leave(LeaveSignal), 0)
    ensures |moves| <= 3 && AllEnabled(s, moves) && Holds(StepAll(s, moves), q)
    ensures forall m :: m in moves ==> m.thread == q || m.thread == r
  {
    ReleaserSignals(s, r, q);
    var rest := TakeToken(Step(s, r, CallEnter), q);
    OneMove(s, Move(r, CallEnter), rest);
    moves := [Move(r, CallEnter)] + rest;
  }

  lemma {:induction false} ReadSignalAndTake(s: State, r: Thread, q: Thread) returns (moves: seq<Move>)
    requires FreeInv(s) && q in Queue(s) && r in s.locals && s.locals[r] == Local(Leave(LeaveReadRecursion), 0)
    ensures |moves| <= 4 && AllEnabled(s, moves) && Holds(StepAll(s, moves), q)
    ensures forall m :: m in moves ==> m.thread == q || m.thread == r
  {
    ReleaserReads(s, r, q);
    var rest := SignalAndTake(Step(s, r, CallEnter), r, q);
    OneMove(s, Move(r, CallEnter), rest);
    moves := [Move(r, CallEnter)] + rest;
  }

  /** From any reachable state with a queued thread and no holder, the releaser and that thread
      alone need at most four steps for the queued thread to hold the lock. */
  lemma {:induction false} HandOffCompletes(states: seq<State>, moves: seq<Move>, i: nat, q: Thread)
    returns (more: seq<Move>)
    requires Run(states, moves) && i < |states| && q in Queue(states[i])
    requires forall t :: !Holds(states[i], t)
    ensures |more| <= 4 && AllEnabled(states[i], more) && Holds(StepAll(states[i], more), q)
    ensures forall m :: m in more ==> m.thread == q || m.thread in Releasers(states[i])
  {
    RunKeepsInv(states, moves, i);
    var s := states[i];
    if s.tokens > 0 {
      more := TakeToken(s, q);
    } else {
      HandOffAccounting(states, moves, i);
      var r :| r in Releasers(s);
      if s.locals[r].pc == Leave(LeaveSignal) {
        more := SignalAndTake(s, r, q);
      } else {
        more := ReadSignalAndTake(s, r, q);
      }
    }
  }

  lemma {:induction false} TakeToken(s: State, q: Thread) returns (moves: seq<Move>)
    requires s.tokens > 0 && q in Queue(s)
    ensures |moves| <= 2 && AllEnabled(s, moves) && Holds(StepAll(s, moves), q)
    ensures forall m :: m in moves ==> m.thread == q
  {
    var m := Move(q, CallEnter);
    if s.locals[q].pc == Enter(EnterWait) {
      OneMove(s, m, []);
      moves := [m] + [];
    } else {
      var s1 := Step(s, q, CallEnter);
      OneMove(s1, m, []);
      OneMove(s, m, [m] + []);
      moves := [m] + ([m] + []);
    }
  }
}
