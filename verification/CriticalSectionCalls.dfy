/** What a call of Enter, TryEnter or Leave (criticalsection.cc) does when its thread runs undisturbed,
    from any reachable state. */
module CriticalSectionCalls {
  import opened CriticalSection

  /** At most `n` steps of thread `t`, up to the end of its call or to where it has to wait. */
  function Finish(s: State, t: Thread, n: nat): State
    requires t in s.locals
    decreases n
  {
    if n == 0 || s.locals[t].pc == Idle || !CanAct(s, s.locals[t], CallEnter) then s
    else Finish(Step(s, t, CallEnter), t, n - 1)
  }

  /** `n` steps of thread `t`, all inside one call, lead from `s` to `r`. */
  ghost predicate Leads(s: State, t: Thread, n: nat, r: State) {
    t in s.locals && t in r.locals && Finish(s, t, n) == r
  }

  lemma {:induction false} LeadsThen(s: State, t: Thread, m: nat, q: State, n: nat, r: State)
    requires Leads(s, t, m, q) && Leads(q, t, n, r)
    ensures Leads(s, t, m + n, r)
    decreases m
  {
    if m == 0 {
    } else if s.locals[t].pc == Idle || !CanAct(s, s.locals[t], CallEnter) {
      assert q == s && r == s;
    } else {
      LeadsThen(Step(s, t, CallEnter), t, m - 1, q, n, r);
    }
  }

  /** Thread `t` at `pc`, everything else as in `s`. */
  function At(s: State, t: Thread, pc: Pc): State
    requires t in s.locals
  {
    s.(locals := s.locals[t := Local(pc, s.locals[t].depth)])
  }

  lemma {:induction false} AtTwice(s: State, t: Thread, a: Pc, b: Pc)
    requires t in s.locals
    ensures At(At(s, t, a), t, b) == At(s, t, b)
  {
    assert At(s, t, a).locals[t := Local(b, s.locals[t].depth)] == s.locals[t := Local(b, s.locals[t].depth)];
  }

  /** One step inside a call, with the shared fields of `n` and the position `pc` as its outcome. */
  lemma {:induction false} One(s: State, t: Thread, n: State, pc: Pc)
    requires t in s.locals && s.locals[t].pc != Idle && CanAct(s, s.locals[t], CallEnter)
    requires s.locals[t].pc != Debug(DebugCount) && n.locals == s.locals
    requires Act(s, t, s.locals[t], CallEnter) == Outcome(n, pc)
    ensures Leads(s, t, 1, At(n, t, pc))
  {
    assert Step(s, t, CallEnter) == At(n, t, pc);
    assert Finish(Step(s, t, CallEnter), t, 0) == Step(s, t, CallEnter);
  }

  /** The same from a state that is `s` with the thread at `from`. */
  lemma {:induction false} Onward(s: State, t: Thread, from: Pc, n: State, pc: Pc)
    requires t in s.locals && from != Idle && from != Debug(DebugCount) && from != Enter(EnterWait)
    requires n.locals == s.locals
    requires var a := At(s, t, from); Act(a, t, a.locals[t], CallEnter) == Outcome(n.(locals := a.locals), pc)
    ensures Leads(At(s, t, from), t, 1, At(n, t, pc))
  {
    var a := At(s, t, from);
    One(a, t, n.(locals := a.locals), pc);
    AtTwice(n, t, from, pc);
    assert n.(locals := a.locals) == At(n, t, from);
  }

  // ---------------------------------------------------------------------------------------------
  // The debug epilogue

  /** The call has returned one more acquisition. */
  function Counted(s: State, t: Thread): State
    requires t in s.locals
  {
    s.(debugThread := if s.debugCount == 0 then t else s.debugThread, debugCount := s.debugCount + 1,
       locals := s.locals[t := Local(Idle, s.locals[t].depth + 1)])
  }

  lemma {:induction false} LastStep(s: State, t: Thread)
    requires t in s.locals
    ensures var r := s.(debugCount := s.debugCount + 1, locals := s.locals[t := Local(Idle, s.locals[t].depth + 1)]);
            Leads(At(s, t, Debug(DebugCount)), t, 1, r)
  {
    var a := At(s, t, Debug(DebugCount));
    var r := s.(debugCount := s.debugCount + 1, locals := s.locals[t := Local(Idle, s.locals[t].depth + 1)]);
    assert a.locals[t := Local(Idle, s.locals[t].depth + 1)] == r.locals;
    assert Step(a, t, CallEnter) == r;
    assert Finish(r, t, 0) == r;
  }

  lemma {:induction false} Epilogue(s: State, t: Thread) returns (n: nat)
    requires t in s.locals
    ensures Leads(At(s, t, Debug(DebugTest)), t, n, Counted(s, t))
  {
    var a := At(s, t, Debug(DebugTest));
    if s.debugCount == 0 {
      var u := s.(debugThread := t);
      Onward(s, t, Debug(DebugTest), s, Debug(DebugCheckNoThread));
      Onward(s, t, Debug(DebugCheckNoThread), s, Debug(DebugSetThread));
      Onward(s, t, Debug(DebugSetThread), u, Debug(DebugCount));
      LastStep(u, t);
      LeadsThen(a, t, 1, At(s, t, Debug(DebugCheckNoThread)), 1, At(s, t, Debug(DebugSetThread)));
      LeadsThen(a, t, 2, At(s, t, Debug(DebugSetThread)), 1, At(u, t, Debug(DebugCount)));
      LeadsThen(a, t, 3, At(u, t, Debug(DebugCount)), 1, Counted(s, t));
      n := 4;
    } else {
      Onward(s, t, Debug(DebugTest), s, Debug(DebugCheckThread));
      Onward(s, t, Debug(DebugCheckThread), s, Debug(DebugCount));
      LastStep(s, t);
      LeadsThen(a, t, 1, At(s, t, Debug(DebugCheckThread)), 1, At(s, t, Debug(DebugCount)));
      LeadsThen(a, t, 2, At(s, t, Debug(DebugCount)), 1, Counted(s, t));
      n := 3;
    }
  }

  // ---------------------------------------------------------------------------------------------
  // Taking the lock

  /** Thread `t` has been given the lock once more by a call that returned. */
  function Acquired(s: State, t: Thread): State
    requires t in s.locals
  {
    Counted(s.(lockQueue := s.lockQueue + 1, owner := t, recursion := s.recursion + 1), t)
  }

  /** The end of Enter, from the record of the new owner on. */
  lemma {:induction false} EnterRecords(s: State, t: Thread) returns (n: nat)
    requires t in s.locals
    ensures Leads(At(s, t, Enter(EnterSetOwner)), t, n, Counted(s.(owner := t, recursion := s.recursion + 1), t))
  {
    var a, u := At(s, t, Enter(EnterSetOwner)), s.(owner := t);
    var v := u.(recursion := u.recursion + 1);
    Onward(s, t, Enter(EnterSetOwner), u, Enter(EnterCount));
    Onward(u, t, Enter(EnterCount), v, Debug(DebugTest));
    LeadsThen(a, t, 1, At(u, t, Enter(EnterCount)), 1, At(v, t, Debug(DebugTest)));
    var k := Epilogue(v, t);
    LeadsThen(a, t, 2, At(v, t, Debug(DebugTest)), k, Counted(v, t));
    n := 2 + k;
  }

  lemma {:induction false} EnterUncontended(s: State, t: Thread, spin: nat) returns (n: nat)
    requires t in s.locals && (s.owner == t || s.lockQueue == 0)
    ensures Leads(At(s, t, Enter(EnterReadOwner(spin))), t, n, Acquired(s, t))
  {
    var a, u := At(s, t, Enter(EnterReadOwner(spin))), s.(lockQueue := s.lockQueue + 1);
    var m;
    if s.owner == t {
      Onward(s, t, Enter(EnterReadOwner(spin)), s, Enter(EnterReenter));
      Onward(s, t, Enter(EnterReenter), u, Enter(EnterSetOwner));
      LeadsThen(a, t, 1, At(s, t, Enter(EnterReenter)), 1, At(u, t, Enter(EnterSetOwner)));
      m := 2;
    } else {
      Onward(s, t, Enter(EnterReadOwner(spin)), s, Enter(EnterLoad(spin)));
      Onward(s, t, Enter(EnterLoad(spin)), s, Enter(EnterCas(spin)));
      Onward(s, t, Enter(EnterCas(spin)), u, Enter(EnterSetOwner));
      LeadsThen(a, t, 1, At(s, t, Enter(EnterLoad(spin))), 1, At(s, t, Enter(EnterCas(spin))));
      LeadsThen(a, t, 2, At(s, t, Enter(EnterCas(spin))), 1, At(u, t, Enter(EnterSetOwner)));
      m := 3;
    }
    var k := EnterRecords(u, t);
    LeadsThen(a, t, m, At(u, t, Enter(EnterSetOwner)), k, Acquired(s, t));
    n := m + k;
  }

  /** Spinning on a lock that others hold or wait for. */
  lemma {:induction false} Spin(s: State, t: Thread, spin: nat)
    requires t in s.locals && s.owner != t && s.lockQueue > 0 && spin > 0
    ensures Leads(At(s, t, Enter(EnterReadOwner(spin))), t, 3 * spin, At(s, t, Enter(EnterQueue)))
    decreases spin
  {
    var a := At(s, t, Enter(EnterReadOwner(spin)));
    var next := if spin > 1 then Enter(EnterReadOwner(spin - 1)) else Enter(EnterQueue);
    Onward(s, t, Enter(EnterReadOwner(spin)), s, Enter(EnterLoad(spin)));
    Onward(s, t, Enter(EnterLoad(spin)), s, Enter(EnterYield(spin)));
    Onward(s, t, Enter(EnterYield(spin)), s, next);
    LeadsThen(a, t, 1, At(s, t, Enter(EnterLoad(spin))), 1, At(s, t, Enter(EnterYield(spin))));
    LeadsThen(a, t, 2, At(s, t, Enter(EnterYield(spin))), 1, At(s, t, next));
    if spin > 1 {
      Spin(s, t, spin - 1);
      LeadsThen(a, t, 3, At(s, t, next), 3 * (spin - 1), At(s, t, Enter(EnterQueue)));
    }
  }

  lemma {:induction false} EnterContended(s: State, t: Thread, spin: nat)
    requires t in s.locals && s.owner != t && s.lockQueue > 0 && spin > 0
    ensures var u := s.(lockQueue := s.lockQueue + 1);
            Leads(At(s, t, Enter(EnterReadOwner(spin))), t, 3 * spin + 2, At(u, t, Enter(EnterWait)))
  {
    var a, u := At(s, t, Enter(EnterReadOwner(spin))), s.(lockQueue := s.lockQueue + 1);
    Spin(s, t, spin);
    Onward(s, t, Enter(EnterQueue), u, Enter(EnterCheckNotOwner));
    Onward(u, t, Enter(EnterCheckNotOwner), u, Enter(EnterWait));
    LeadsThen(a, t, 3 * spin, At(s, t, Enter(EnterQueue)), 1, At(u, t, Enter(EnterCheckNotOwner)));
    LeadsThen(a, t, 3 * spin + 1, At(u, t, Enter(EnterCheckNotOwner)), 1, At(u, t, Enter(EnterWait)));
  }

  /** A waiting thread takes a token, and with it the lock. */
  lemma {:induction false} WaitEnds(s: State, t: Thread) returns (n: nat)
    requires t in s.locals && s.tokens > 0
    ensures var u := s.(tokens := s.tokens - 1, owner := t, recursion := s.recursion + 1);
            Leads(At(s, t, Enter(EnterWait)), t, n, Counted(u, t))
  {
    var a, u := At(s, t, Enter(EnterWait)), s.(tokens := s.tokens - 1);
    One(a, t, a.(tokens := a.tokens - 1), Enter(EnterCheckNoOwner));
    AtTwice(u, t, Enter(EnterWait), Enter(EnterCheckNoOwner));
    assert a.(tokens := a.tokens - 1) == At(u, t, Enter(EnterWait));
    Onward(u, t, Enter(EnterCheckNoOwner), u, Enter(EnterCheckNoRecursion));
    Onward(u, t, Enter(EnterCheckNoRecursion), u, Enter(EnterSetOwner));
    LeadsThen(a, t, 1, At(u, t, Enter(EnterCheckNoOwner)), 1, At(u, t, Enter(EnterCheckNoRecursion)));
    LeadsThen(a, t, 2, At(u, t, Enter(EnterCheckNoRecursion)), 1, At(u, t, Enter(EnterSetOwner)));
    var k := EnterRecords(u, t);
    LeadsThen(a, t, 3, At(u, t, Enter(EnterSetOwner)), k, Counted(u.(owner := t, recursion := u.recursion + 1), t));
    n := 3 + k;
  }

  lemma {:induction false} TryTakes(s: State, t: Thread) returns (n: nat)
    requires t in s.locals && (s.owner == t || s.lockQueue == 0)
    ensures Leads(At(s, t, TryEnter(TryReadOwner)), t, n, Acquired(s, t))
  {
    var a, u := At(s, t, TryEnter(TryReadOwner)), s.(lockQueue := s.lockQueue + 1);
    var w := u.(owner := t);
    var m;
    if s.owner == t {
      Onward(s, t, TryEnter(TryReadOwner), s, TryEnter(TryReenter));
      Onward(s, t, TryEnter(TryReenter), u, TryEnter(TryCount));
      LeadsThen(a, t, 1, At(s, t, TryEnter(TryReenter)), 1, At(w, t, TryEnter(TryCount)));
      m := 2;
    } else {
      Onward(s, t, TryEnter(TryReadOwner), s, TryEnter(TryCas));
      Onward(s, t, TryEnter(TryCas), u, TryEnter(TrySetOwner));
      Onward(u, t, TryEnter(TrySetOwner), w, TryEnter(TryCheckNoRecursion));
      Onward(w, t, TryEnter(TryCheckNoRecursion), w, TryEnter(TryCount));
      LeadsThen(a, t, 1, At(s, t, TryEnter(TryCas)), 1, At(u, t, TryEnter(TrySetOwner)));
      LeadsThen(a, t, 2, At(u, t, TryEnter(TrySetOwner)), 1, At(w, t, TryEnter(TryCheckNoRecursion)));
      LeadsThen(a, t, 3, At(w, t, TryEnter(TryCheckNoRecursion)), 1, At(w, t, TryEnter(TryCount)));
      m := 4;
    }
    var v := w.(recursion := w.recursion + 1);
    Onward(w, t, TryEnter(TryCount), v, Debug(DebugTest));
    LeadsThen(a, t, m, At(w, t, TryEnter(TryCount)), 1, At(v, t, Debug(DebugTest)));
    var k := Epilogue(v, t);
    LeadsThen(a, t, m + 1, At(v, t, Debug(DebugTest)), k, Counted(v, t));
    n := m + 1 + k;
  }

  lemma {:induction false} TryFails(s: State, t: Thread)
    requires t in s.locals && s.owner != t && s.lockQueue != 0
    ensures Leads(At(s, t, TryEnter(TryReadOwner)), t, 2, At(s, t, Idle))
  {
    Onward(s, t, TryEnter(TryReadOwner), s, TryEnter(TryCas));
    Onward(s, t, TryEnter(TryCas), s, Idle);
    LeadsThen(At(s, t, TryEnter(TryReadOwner)), t, 1, At(s, t, TryEnter(TryCas)), 1, At(s, t, Idle));
  }

  // ---------------------------------------------------------------------------------------------
  // Giving it back

  /** The debug bookkeeping at the start of Leave. */
  function Uncounted(s: State): State {
    s.(debugCount := s.debugCount - 1, debugThread := if s.debugCount == 1 then NO_THREAD else s.debugThread)
  }

  lemma {:induction false} LeaveUncounts(s: State, t: Thread) returns (n: nat)
    requires t in s.locals
    ensures Leads(At(s, t, Leave(LeaveCheckThread)), t, n, At(Uncounted(s), t, Leave(LeaveCheckOwner)))
  {
    var a, u := At(s, t, Leave(LeaveCheckThread)), s.(debugCount := s.debugCount - 1);
    Onward(s, t, Leave(LeaveCheckThread), s, Leave(LeaveDebugCount));
    Onward(s, t, Leave(LeaveDebugCount), u, Leave(LeaveCheckCount));
    Onward(u, t, Leave(LeaveCheckCount), u, Leave(LeaveTestCount));
    LeadsThen(a, t, 1, At(s, t, Leave(LeaveDebugCount)), 1, At(u, t, Leave(LeaveCheckCount)));
    LeadsThen(a, t, 2, At(u, t, Leave(LeaveCheckCount)), 1, At(u, t, Leave(LeaveTestCount)));
    var w := Uncounted(s);
    if u.debugCount == 0 {
      Onward(u, t, Leave(LeaveTestCount), u, Leave(LeaveClearThread));
      Onward(u, t, Leave(LeaveClearThread), w, Leave(LeaveCheckOwner));
      LeadsThen(a, t, 3, At(u, t, Leave(LeaveTestCount)), 1, At(u, t, Leave(LeaveClearThread)));
      LeadsThen(a, t, 4, At(u, t, Leave(LeaveClearThread)), 1, At(w, t, Leave(LeaveCheckOwner)));
      n := 5;
    } else {
      Onward(u, t, Leave(LeaveTestCount), w, Leave(LeaveCheckOwner));
      LeadsThen(a, t, 3, At(u, t, Leave(LeaveTestCount)), 1, At(w, t, Leave(LeaveCheckOwner)));
      n := 4;
    }
  }

  /** The owner's bookkeeping. */
  function Disowned(s: State): State {
    s.(recursion := s.recursion - 1, owner := if s.recursion == 1 then NO_THREAD else s.owner)
  }

  lemma {:induction false} LeaveDisowns(s: State, t: Thread) returns (n: nat)
    requires t in s.locals
    ensures Leads(At(s, t, Leave(LeaveCheckOwner)), t, n, At(Disowned(s), t, Leave(LeaveRelease)))
  {
    var a, u := At(s, t, Leave(LeaveCheckOwner)), s.(recursion := s.recursion - 1);
    Onward(s, t, Leave(LeaveCheckOwner), s, Leave(LeaveCheckRecursion));
    Onward(s, t, Leave(LeaveCheckRecursion), s, Leave(LeaveCount));
    Onward(s, t, Leave(LeaveCount), u, Leave(LeaveTestRecursion));
    LeadsThen(a, t, 1, At(s, t, Leave(LeaveCheckRecursion)), 1, At(s, t, Leave(LeaveCount)));
    LeadsThen(a, t, 2, At(s, t, Leave(LeaveCount)), 1, At(u, t, Leave(LeaveTestRecursion)));
    var w := Disowned(s);
    if u.recursion == 0 {
      Onward(u, t, Leave(LeaveTestRecursion), u, Leave(LeaveClearOwner));
      Onward(u, t, Leave(LeaveClearOwner), w, Leave(LeaveRelease));
      LeadsThen(a, t, 3, At(u, t, Leave(LeaveTestRecursion)), 1, At(u, t, Leave(LeaveClearOwner)));
      LeadsThen(a, t, 4, At(u, t, Leave(LeaveClearOwner)), 1, At(w, t, Leave(LeaveRelease)));
      n := 5;
    } else {
      Onward(u, t, Leave(LeaveTestRecursion), w, Leave(LeaveRelease));
      LeadsThen(a, t, 3, At(u, t, Leave(LeaveTestRecursion)), 1, At(w, t, Leave(LeaveRelease)));
      n := 4;
    }
  }

  /** The queue counter goes down, and a token is left for a waiting thread if the lock is free. */
  function Signalled(s: State): State {
    s.(lockQueue := s.lockQueue - 1, tokens := s.tokens + if s.lockQueue > 1 && s.recursion == 0 then 1 else 0)
  }

  lemma {:induction false} LeaveSignals(s: State, t: Thread) returns (n: nat)
    requires t in s.locals
    ensures Leads(At(s, t, Leave(LeaveRelease)), t, n, At(Signalled(s), t, Idle))
  {
    var a, u, w := At(s, t, Leave(LeaveRelease)), s.(lockQueue := s.lockQueue - 1), Signalled(s);
    if u.lockQueue <= 0 {
      Onward(s, t, Leave(LeaveRelease), w, Idle);
      n := 1;
    } else {
      Onward(s, t, Leave(LeaveRelease), u, Leave(LeaveReadRecursion));
      if u.recursion == 0 {
        Onward(u, t, Leave(LeaveReadRecursion), u, Leave(LeaveSignal));
        Onward(u, t, Leave(LeaveSignal), w, Idle);
        LeadsThen(a, t, 1, At(u, t, Leave(LeaveReadRecursion)), 1, At(u, t, Leave(LeaveSignal)));
        LeadsThen(a, t, 2, At(u, t, Leave(LeaveSignal)), 1, At(w, t, Idle));
        n := 3;
      } else {
        Onward(u, t, Leave(LeaveReadRecursion), w, Idle);
        LeadsThen(a, t, 1, At(u, t, Leave(LeaveReadRecursion)), 1, At(w, t, Idle));
        n := 2;
      }
    }
  }

  lemma {:induction false} LeaveAll(s: State, t: Thread) returns (n: nat)
    requires t in s.locals
    ensures Leads(At(s, t, Leave(LeaveCheckThread)), t, n, At(Signalled(Disowned(Uncounted(s))), t, Idle))
  {
    var a, u := At(s, t, Leave(LeaveCheckThread)), Uncounted(s);
    var v := Disowned(u);
    var i := LeaveUncounts(s, t);
    var j := LeaveDisowns(u, t);
    var k := LeaveSignals(v, t);
    LeadsThen(a, t, i, At(u, t, Leave(LeaveCheckOwner)), j, At(v, t, Leave(LeaveRelease)));
    LeadsThen(a, t, i + j, At(v, t, Leave(LeaveRelease)), k, At(Signalled(v), t, Idle));
    n := i + j + k;
  }

  // ---------------------------------------------------------------------------------------------
  // The calls, from every reachable state

  /** Nobody holds the lock and nobody waits for it. */
  ghost predicate Available(s: State) {
    Queue(s) == {} && forall u :: !Holds(s, u)
  }

  /** `r` is `s` with the idle thread `t` as the holder, `d` times over. */
  ghost predicate HeldBy(s: State, r: State, t: Thread, d: nat) {
    && r.locals == s.locals[t := Local(Idle, d)]
    && r.owner == t && r.recursion == d && r.debugThread == t && r.debugCount == d
    && r.lockQueue == d + |Queue(s) - {t}| && r.tokens == 0
  }

  /** `r` is `s` with the lock given up by the idle thread `t`: one token is left if anybody waits. */
  ghost predicate FreedBy(s: State, r: State, t: Thread) {
    && r.locals == s.locals[t := Local(Idle, 0)]
    && r.owner == NO_THREAD && r.recursion == 0 && r.debugThread == NO_THREAD && r.debugCount == 0
    && r.lockQueue == |Queue(s)| && r.tokens == if Queue(s) == {} then 0 else 1
  }

  /** An idle thread is the holder exactly when owning_thread_ names it, and the lock is available exactly
      when lock_queue_ is zero. */
  lemma {:induction false} IdleView(s: State, t: Thread)
    requires Inv(s) && t in s.locals && s.locals[t].pc == Idle
    ensures Queue(s) - {t} == Queue(s) && s.lockQueue >= 0
    ensures (s.owner == t <==> Holds(s, t)) && (Holds(s, t) <==> s.locals[t].depth > 0)
    ensures s.lockQueue == 0 <==> Available(s)
    ensures Holds(s, t) ==> HeldBy(s, s, t, s.locals[t].depth)
    ensures Available(s) ==> s.owner == NO_THREAD && s.recursion == 0 && s.debugCount == 0 && s.tokens == 0
  {
    assert |Queue(s)| == 0 <==> Queue(s) == {};
    if FreeInv(s) {
      assert forall u :: !Holds(s, u);
    } else {
      var h :| HeldInv(s, h);
      assert Holds(s, h);
      assert Holds(s, t) ==> s.locals == s.locals[t := Local(Idle, s.locals[t].depth)];
    }
  }

  lemma {:induction false} AcquiredIsHeld(s: State, t: Thread)
    requires Inv(s) && t in s.locals && s.locals[t].pc == Idle && (Holds(s, t) || Available(s))
    ensures HeldBy(s, Acquired(s, t), t, s.locals[t].depth + 1)
  {
    IdleView(s, t);
  }

  /** TryEnter takes the lock, once more, exactly when its caller holds it or it is available, and
      otherwise returns with nothing changed. */
  lemma {:induction false} TryEnterReturns(states: seq<State>, moves: seq<Move>, i: nat, t: Thread) returns (n: nat, r: State)
    requires Run(states, moves) && i < |states| && t in states[i].locals && states[i].locals[t].pc == Idle
    ensures Leads(Step(states[i], t, CallTryEnter), t, n, r)
    ensures Holds(states[i], t) || Available(states[i]) ==> HeldBy(states[i], r, t, states[i].locals[t].depth + 1)
    ensures !Holds(states[i], t) && !Available(states[i]) ==> r == states[i] && r.locals[t] == Local(Idle, 0)
  {
    var s := states[i];
    RunKeepsInv(states, moves, i);
    IdleView(s, t);
    assert Step(s, t, CallTryEnter) == At(s, t, TryEnter(TryReadOwner));
    if s.owner == t || s.lockQueue == 0 {
      AcquiredIsHeld(s, t);
      n := TryTakes(s, t);
      r := Acquired(s, t);
    } else {
      TryFails(s, t);
      n, r := 2, At(s, t, Idle);
      assert r.locals == s.locals;
    }
  }

  /** Enter by the holder, or on an available lock, takes it without waiting. */
  lemma {:induction false} EnterReturns(states: seq<State>, moves: seq<Move>, i: nat, t: Thread) returns (n: nat, r: State)
    requires Run(states, moves) && i < |states| && t in states[i].locals && states[i].locals[t].pc == Idle
    requires Holds(states[i], t) || Available(states[i])
    ensures Leads(Step(states[i], t, CallEnter), t, n, r)
    ensures HeldBy(states[i], r, t, states[i].locals[t].depth + 1)
  {
    var s := states[i];
    RunKeepsInv(states, moves, i);
    IdleView(s, t);
    AcquiredIsHeld(s, t);
    assert Step(s, t, CallEnter) == At(s, t, Enter(EnterReadOwner(SPIN_COUNT)));
    n := EnterUncontended(s, t, SPIN_COUNT);
    r := Acquired(s, t);
  }

  /** `r` is `s` with thread `t` in the queue, about to wait. */
  ghost predicate QueuedBy(s: State, r: State, t: Thread) {
    r == s.(lockQueue := s.lockQueue + 1, locals := s.locals[t := Local(Enter(EnterWait), 0)])
  }

  lemma {:induction false} QueuesAfterSpinning(s: State, t: Thread, spin: nat) returns (r: State)
    requires Inv(s) && t in s.locals && s.locals[t].pc == Idle && !Holds(s, t) && !Available(s) && spin > 0
    ensures Leads(At(s, t, Enter(EnterReadOwner(spin))), t, 3 * spin + 2, r) && QueuedBy(s, r, t)
  {
    IdleView(s, t);
    EnterContended(s, t, spin);
    r := At(s.(lockQueue := s.lockQueue + 1), t, Enter(EnterWait));
  }

  /** In every other case Enter spins 3000 times, three operations a turn, and then queues. It waits unless
      a token is there already. */
  lemma {:induction false} EnterQueues(states: seq<State>, moves: seq<Move>, i: nat, t: Thread) returns (n: nat, r: State)
    requires Run(states, moves) && i < |states| && t in states[i].locals && states[i].locals[t].pc == Idle
    requires !Holds(states[i], t) && !Available(states[i])
    ensures n == 3 * 3000 + 2 && Leads(Step(states[i], t, CallEnter), t, n, r) && QueuedBy(states[i], r, t)
    ensures t in Queue(r) && (Enabled(r, t, CallEnter) <==> states[i].tokens > 0)
  {
    RunKeepsInv(states, moves, i);
    var spin := SPIN_COUNT;
    assert Step(states[i], t, CallEnter) == At(states[i], t, Enter(EnterReadOwner(spin)));
    r := QueuesAfterSpinning(states[i], t, spin);
    n := 3 * spin + 2;
  }

  lemma {:induction false} WaitView(s: State, t: Thread)
    requires Inv(s) && t in s.locals && s.locals[t].pc == Enter(EnterWait) && s.tokens > 0
    ensures s.tokens == 1 && s.recursion == 0 && s.debugCount == 0 && s.locals[t].depth == 0
    ensures s.lockQueue == 1 + |Queue(s) - {t}|
  {
    assert FreeInv(s) && t in Queue(s);
    CardinalityAfter(Queue(s), Queue(s) - {t}, t);
  }

  /** A queued thread that finds a token takes the lock and returns. */
  lemma {:induction false} WaitReturns(states: seq<State>, moves: seq<Move>, i: nat, t: Thread) returns (n: nat, r: State)
    requires Run(states, moves) && i < |states| && t in states[i].locals && states[i].locals[t].pc == Enter(EnterWait)
    requires states[i].tokens > 0
    ensures Leads(states[i], t, n, r) && HeldBy(states[i], r, t, 1)
  {
    var s := states[i];
    RunKeepsInv(states, moves, i);
    WaitView(s, t);
    assert At(s, t, Enter(EnterWait)).locals == s.locals;
    n := WaitEnds(s, t);
    r := Counted(s.(tokens := s.tokens - 1, owner := t, recursion := s.recursion + 1), t);
  }

  /** The fields Leave ends with, given that they named the holder `t` when it began. */
  lemma {:induction false} LeftFields(s: State, t: Thread, u: State)
    requires t in s.locals && HeldBy(s, s, t, s.locals[t].depth) && s.locals[t].depth > 0 && Queue(s) - {t} == Queue(s)
    requires u == s.(locals := s.locals[t := Local(Leave(LeaveCheckThread), s.locals[t].depth - 1)])
    ensures var r := At(Signalled(Disowned(Uncounted(u))), t, Idle);
            if s.locals[t].depth > 1 then HeldBy(s, r, t, s.locals[t].depth - 1) else FreedBy(s, r, t)
  {
    var r := At(Signalled(Disowned(Uncounted(u))), t, Idle);
    assert r.locals == s.locals[t := Local(Idle, s.locals[t].depth - 1)];
    assert Queue(s) == {} <==> |Queue(s)| == 0;
  }

  lemma {:induction false} LeaveByHolder(s: State, t: Thread) returns (n: nat, r: State)
    requires t in s.locals && s.locals[t].pc == Idle && HeldBy(s, s, t, s.locals[t].depth)
    requires s.locals[t].depth > 0 && Queue(s) - {t} == Queue(s)
    ensures Leads(Step(s, t, CallLeave), t, n, r)
    ensures if s.locals[t].depth > 1 then HeldBy(s, r, t, s.locals[t].depth - 1) else FreedBy(s, r, t)
  {
    var u := Step(s, t, CallLeave);
    LeftFields(s, t, u);
    assert At(u, t, Leave(LeaveCheckThread)).locals == u.locals;
    n := LeaveAll(u, t);
    r := At(Signalled(Disowned(Uncounted(u))), t, Idle);
  }

  /** Leave gives the lock back once; the last Leave frees it and wakes one thread if any is queued. */
  lemma {:induction false} LeaveReturns(states: seq<State>, moves: seq<Move>, i: nat, t: Thread) returns (n: nat, r: State)
    requires Run(states, moves) && i < |states| && t in states[i].locals && states[i].locals[t].pc == Idle
    requires states[i].locals[t].depth > 0
    ensures Leads(Step(states[i], t, CallLeave), t, n, r)
    ensures states[i].locals[t].depth > 1 ==> HeldBy(states[i], r, t, states[i].locals[t].depth - 1)
    ensures states[i].locals[t].depth == 1 ==> FreedBy(states[i], r, t)
  {
    RunKeepsInv(states, moves, i);
    IdleView(states[i], t);
    n, r := LeaveByHolder(states[i], t);
  }
}
