/** Callers of dpiConn_close racing for one connection (odpi/src/dpiConn.c). */
module ConnClose {

  /** Where a thread stands.  `seen` is the flag as it was when read. */
  datatype Pc =
    | Start | Lock | Read | Mark(seen: bool) | Unlock(seen: bool) | Decide(seen: bool)
    | Inside
    | Relock | Clear | Unlock2
    | Refused | Failed | Succeeded

  /** The connection, the lock of the environment, the threads, and how many
      closes have succeeded so far. */
  datatype State = State(handle: bool, closing: bool, holder: int, pcs: seq<Pc>, successes: nat)

  const FREE := -1

  ghost predicate Init(s: State) {
    s.handle && !s.closing && s.holder == FREE && s.successes == 0 && forall t :: 0 <= t < |s.pcs| ==> s.pcs[t] == Start
  }

  /** Locking is skipped altogether unless the environment is threaded. */
  predicate Takes(threaded: bool, s: State, t: nat, s': State) {
    if threaded then s.holder == FREE && s'.holder == t else s'.holder == s.holder
  }

  predicate Gives(threaded: bool, s: State, s': State) {
    s'.holder == if threaded then FREE else s.holder
  }

  /** One step of thread t, from one access of shared data to the next. */
  ghost predicate Step(threaded: bool, s: State, t: nat, s': State) {
    && t < |s.pcs| && |s'.pcs| == |s.pcs|
    && s' == s.(handle := s'.handle, closing := s'.closing, holder := s'.holder, pcs := s.pcs[t := s'.pcs[t]],
         successes := s'.successes)
    && var pc, pc' := s.pcs[t], s'.pcs[t];
       var shared := s'.handle == s.handle && s'.successes == s.successes;
       match pc
       // the checks at the top, made without the lock; others may refuse as well
       case Start => shared && s'.closing == s.closing && s'.holder == s.holder &&
         (pc' == Refused || (pc' == Lock && s.handle && !s.closing))
       case Lock => shared && s'.closing == s.closing && Takes(threaded, s, t, s') && pc' == Read
       case Read => shared && s'.closing == s.closing && s'.holder == s.holder && pc' == Mark(s.closing)
       case Mark(seen) => shared && s'.closing && s'.holder == s.holder && pc' == Unlock(seen)
       case Unlock(seen) => shared && s'.closing == s.closing && Gives(threaded, s, s') && pc' == Decide(seen)
       case Decide(seen) => shared && s'.closing == s.closing && s'.holder == s.holder
         && pc' == if seen then Refused else Inside
       // the internal close drops the handle if it succeeds
       case Inside => s'.closing == s.closing && s'.holder == s.holder &&
         ((pc' == Succeeded && !s'.handle && s'.successes == s.successes + 1) || (pc' == Relock && shared))
       case Relock => shared && s'.closing == s.closing && Takes(threaded, s, t, s') && pc' == Clear
       case Clear => shared && !s'.closing && s'.holder == s.holder && pc' == Unlock2
       case Unlock2 => shared && s'.closing == s.closing && Gives(threaded, s, s') && pc' == Failed
       // and a thread may call again
       case _ => shared && s'.closing == s.closing && s'.holder == s.holder && pc' == Start
  }

  ghost predicate Next(threaded: bool, s: State, s': State) { exists t :: Step(threaded, s, t, s') }

  ghost predicate Run(threaded: bool, run: seq<State>) {
    run != [] && Init(run[0]) && forall i :: 0 < i < |run| ==> Next(threaded, run[i - 1], run[i])
  }

  /** What callers rely on. */
  ghost predicate Exclusive(s: State) {
    && (forall t, u :: 0 <= t < |s.pcs| && 0 <= u < |s.pcs| && s.pcs[t] == Inside && s.pcs[u] == Inside ==> t == u)
    && s.successes <= 1
    && (forall t :: 0 <= t < |s.pcs| && s.pcs[t] == Inside ==> s.successes == 0)
  }

  // ----- threaded mode -----

  predicate Critical(pc: Pc) { pc.Read? || pc.Mark? || pc.Unlock? || pc.Clear? || pc.Unlock2? }

  /** The thread that set the flag, until it clears it or succeeds. */
  predicate Owner(pc: Pc) { pc == Unlock(false) || pc == Decide(false) || pc == Inside || pc == Relock || pc == Clear }

  ghost predicate Locked(s: State) { forall t :: 0 <= t < |s.pcs| ==> (Critical(s.pcs[t]) <==> s.holder == t) }

  ghost predicate Single(s: State) {
    forall t, u :: 0 <= t < |s.pcs| && 0 <= u < |s.pcs| && Owner(s.pcs[t]) && Owner(s.pcs[u]) ==> t == u
  }

  ghost predicate Owned(s: State) { exists t :: 0 <= t < |s.pcs| && Owner(s.pcs[t]) }

  ghost predicate Inv(s: State) {
    && Locked(s) && Single(s) && s.successes <= 1
    && (s.handle <==> s.successes == 0)
    && (Owned(s) ==> s.closing && s.successes == 0)
    && (s.closing ==> Owned(s) || s.successes == 1)
    && (s.successes == 1 ==> s.closing)
    && (forall t :: 0 <= t < |s.pcs| && s.pcs[t].Mark? ==> s.pcs[t].seen == s.closing)
  }

  lemma {:induction false} StepKeeps(s: State, t: nat, s': State)
    requires Inv(s) && Step(true, s, t, s')
    ensures Inv(s')
  {
    OwnersKept(s, t, s');
    forall u | 0 <= u < |s'.pcs| ensures Critical(s'.pcs[u]) <==> s'.holder == u {
      assert Critical(s.pcs[u]) <==> s.holder == u;
    }
  }

  lemma {:induction false} OwnersKept(s: State, t: nat, s': State)
    requires Inv(s) && Step(true, s, t, s')
    ensures Single(s')
    ensures Owned(s') ==> s'.closing && s'.successes == 0
    ensures s'.closing ==> Owned(s') || s'.successes == 1
  {
    if Owned(s) {
      var u :| 0 <= u < |s.pcs| && Owner(s.pcs[u]);
      assert u != t ==> s'.pcs[u] == s.pcs[u];
    }
    assert Owner(s'.pcs[t]) ==> Owned(s');
  }

  /** Whatever the interleaving: at most one thread is inside the internal
      close, and at most one close ever succeeds. */
  lemma {:induction false} AlwaysExclusive(run: seq<State>, i: nat)
    requires Run(true, run) && i < |run|
    ensures Inv(run[i]) && Exclusive(run[i])
  {
    if i > 0 {
      AlwaysExclusive(run, i - 1);
      var t :| Step(true, run[i - 1], t, run[i]);
      StepKeeps(run[i - 1], t, run[i]);
    }
  }

  // ----- after a failed close -----

  lemma {:induction false} Extend(threaded: bool, run: seq<State>, t: nat, s': State)
    requires Run(threaded, run) && Step(threaded, run[|run| - 1], t, s')
    ensures Run(threaded, run + [s'])
  {
    var longer := run + [s'];
    forall i | 0 < i < |longer| ensures Next(threaded, longer[i - 1], longer[i]) {
      if i < |run| {
        assert Next(threaded, run[i - 1], run[i]);
      }
    }
  }

  predicate Resting(pc: Pc) { pc == Start || pc == Refused || pc == Failed }

  function Put(a: State, t: nat, pc: Pc, holder: int, closing: bool): State
    requires t < |a.pcs|
  {
    a.(pcs := a.pcs[t := pc], holder := holder, closing := closing)
  }

  /** Thread t goes on alone. */
  lemma {:induction false} Go(run: seq<State>, a: State, t: nat, pc: Pc, holder: int, closing: bool, pc': Pc,
          holder': int, closing': bool)
    returns (longer: seq<State>)
    requires t < |a.pcs| && Run(true, run) && run[|run| - 1] == Put(a, t, pc, holder, closing)
    requires Step(true, Put(a, t, pc, holder, closing), t, Put(a, t, pc', holder', closing'))
    ensures Run(true, longer) && run <= longer && longer[|longer| - 1] == Put(a, t, pc', holder', closing')
  {
    longer := run + [Put(a, t, pc', holder', closing')];
    Extend(true, run, t, Put(a, t, pc', holder', closing'));
  }

  /** As long as no close has succeeded and nobody is at it, any thread can
      get to the internal close again: failures are not final. */
  lemma {:induction false} Retry(run: seq<State>, t: nat) returns (longer: seq<State>)
    requires Run(true, run)
    requires var s := run[|run| - 1]; s.successes == 0 && t < |s.pcs| && forall u :: 0 <= u < |s.pcs| ==>
             Resting(s.pcs[u])
    ensures run <= longer && Run(true, longer)
    ensures var s := longer[|longer| - 1]; t < |s.pcs| && s.pcs[t] == Inside
  {
    var a := run[|run| - 1];
    AlwaysExclusive(run, |run| - 1);
    HolderIsThread(run, |run| - 1);
    Quiet(a);
    hide Run, Inv;
    assert a == Put(a, t, a.pcs[t], FREE, false);
    longer := run;
    if a.pcs[t] != Start {
      longer := Go(longer, a, t, a.pcs[t], FREE, false, Start, FREE, false);
    }
    var inside := Alone(longer, a, t);
    longer := inside;
  }

  /** From the start to the internal close, while the others rest. */
  lemma {:induction false} Alone(run: seq<State>, a: State, t: nat) returns (longer: seq<State>)
    requires t < |a.pcs| && Run(true, run) && run[|run| - 1] == Put(a, t, Start, FREE, false) && a.handle
    ensures run <= longer && Run(true, longer) && longer[|longer| - 1] == Put(a, t, Inside, FREE, true)
  {
    hide Run;
    longer := Go(run, a, t, Start, FREE, false, Lock, FREE, false);
    longer := Go(longer, a, t, Lock, FREE, false, Read, t, false);
    longer := Go(longer, a, t, Read, t, false, Mark(false), t, false);
    longer := Go(longer, a, t, Mark(false), t, false, Unlock(false), t, true);
    longer := Go(longer, a, t, Unlock(false), t, true, Decide(false), FREE, true);
    longer := Go(longer, a, t, Decide(false), FREE, true, Inside, FREE, true);
  }

  lemma {:induction false} Quiet(s: State)
    requires Inv(s) && s.successes == 0 && (s.holder == FREE || 0 <= s.holder < |s.pcs|)
             && forall u :: 0 <= u < |s.pcs| ==> Resting(s.pcs[u])
    ensures s.handle && !s.closing && s.holder == FREE
  {
    assert 0 <= s.holder < |s.pcs| ==> !Critical(s.pcs[s.holder]);
  }

  /** The lock is only ever held by one of the threads. */
  lemma {:induction false} HolderIsThread(run: seq<State>, i: nat)
    requires Run(true, run) && i < |run|
    ensures run[i].holder == FREE || 0 <= run[i].holder < |run[i].pcs|
  {
    if i > 0 {
      HolderIsThread(run, i - 1);
      var t :| Step(true, run[i - 1], t, run[i]);
    }
  }

  // ----- without the lock -----

  /** Two threads read the flag before either sets it. */
  lemma {:induction false} Race() returns (run: seq<State>)
    ensures Run(false, run) && !Exclusive(run[|run| - 1]) && run[|run| - 1].successes == 2
  {
    run := [State(true, false, FREE, [Start, Start], 0)];
    run := Both(run, Start, Start, Lock, Lock, false, false);
    run := Both(run, Lock, Lock, Read, Read, false, false);
    run := Both(run, Read, Read, Mark(false), Mark(false), false, false);
    run := Both(run, Mark(false), Mark(false), Unlock(false), Unlock(false), false, true);
    run := Both(run, Unlock(false), Unlock(false), Decide(false), Decide(false), true, true);
    run := Both(run, Decide(false), Decide(false), Inside, Inside, true, true);
    Extend(false, run, 0, State(false, true, FREE, [Succeeded, Inside], 1));
    run := run + [State(false, true, FREE, [Succeeded, Inside], 1)];
    Extend(false, run, 1, State(false, true, FREE, [Succeeded, Succeeded], 2));
    run := run + [State(false, true, FREE, [Succeeded, Succeeded], 2)];
  }

  /** The same step of one thread and then of the other. */
  lemma {:induction false} Both(run: seq<State>, p: Pc, q: Pc, p': Pc, q': Pc, was: bool, will: bool)
    returns (longer: seq<State>)
    requires Run(false, run) && run[|run| - 1] == State(true, was, FREE, [p, q], 0)
    requires Step(false, State(true, was, FREE, [p, q], 0), 0, State(true, will, FREE, [p', q], 0))
    requires Step(false, State(true, will, FREE, [p', q], 0), 1, State(true, will, FREE, [p', q'], 0))
    ensures Run(false, longer) && longer[|longer| - 1] == State(true, will, FREE, [p', q'], 0)
  {
    Extend(false, run, 0, State(true, will, FREE, [p', q], 0));
    longer := run + [State(true, will, FREE, [p', q], 0)];
    Extend(false, longer, 1, State(true, will, FREE, [p', q'], 0));
    longer := longer + [State(true, will, FREE, [p', q'], 0)];
  }

  ghost predicate EveryRunExclusive(threaded: bool) {
    forall run, i :: Run(threaded, run) && 0 <= i < |run| ==> Exclusive(run[i])
  }

  /** The lock is what it takes. */
  lemma {:induction false} ExclusiveIffThreaded(threaded: bool)
    ensures EveryRunExclusive(threaded) <==> threaded
  {
    if threaded {
      forall run, i | Run(true, run) && 0 <= i < |run| ensures Exclusive(run[i]) {
        AlwaysExclusive(run, i);
      }
    } else {
      var run := Race();
    }
  }
}
