/** Callers of getPool racing for the driver's map of pools (drv.go). */
module PoolRegistry {
  import opened Wrappers

  /** A created pool: its key once given, and how often it was closed. */
  datatype Pool = Pool(key: Option<string>, closes: nat)

  /** Where a caller stands; pools are known by the order of their creation. */
  datatype Pc =
    | Start
    | Reading                          // holds the read lock
    | Looked(found: Option<nat>)
    | Created(pool: nat)
    | Writing(pool: nat)               // holds the lock, from here ...
    | Losing(pool: nat, winner: nat)
    | Keyed(pool: nat)
    | Leaving(result: nat)             // ... to here
    | Returned(result: nat)
    | Failed

  datatype Caller = Caller(key: string, pc: Pc)

  /** `returned` records every answer ever given. */
  datatype State = State(pools: map<string, nat>, handles: seq<Pool>, writer: int, callers: seq<Caller>,
                         returned: set<(string, nat)>)

  const FREE := -1

  ghost predicate Init(s: State) {
    s.pools == map[] && s.handles == [] && s.writer == FREE && s.returned == {}
      && forall t :: 0 <= t < |s.callers| ==> s.callers[t].pc == Start
  }

  predicate NoReaders(s: State) { forall t :: 0 <= t < |s.callers| ==> s.callers[t].pc != Reading }

  function Lookup(pools: map<string, nat>, key: string): Option<nat> { if key in pools then Some(pools[key]) else None }

  function At(s: State, t: nat, pc: Pc): State
    requires t < |s.callers|
  {
    s.(callers := s.callers[t := s.callers[t].(pc := pc)])
  }

  /** One step of caller t. */
  ghost predicate Step(s: State, t: nat, s': State) {
    && t < |s.callers|
    && var key := s.callers[t].key;
       match s.callers[t].pc
       case Start => s.writer == FREE && s' == At(s, t, Reading)
       case Reading => s' == At(s, t, Looked(Lookup(s.pools, key)))
       case Looked(Some(p)) => s' == At(s, t, Returned(p)).(returned := s.returned + {(key, p)})
       // creation may fail
       case Looked(None) =>
         s' == At(s, t, Failed) || s' == At(s, t, Created(|s.handles|)).(handles := s.handles + [Pool(None, 0)])
       case Created(p) => s.writer == FREE && NoReaders(s) && s' == At(s, t, Writing(p)).(writer := t)
       case Writing(p) =>
         if key in s.pools then s' == At(s, t, Losing(p, s.pools[key]))
         else p < |s.handles| && s' == At(s, t, Keyed(p)).(handles := s.handles[p := s.handles[p].(key := Some(key))])
       case Losing(p, w) =>
         p < |s.handles|
           && s' == At(s, t, Leaving(w)).(handles := s.handles[p := s.handles[p].(closes := s.handles[p].closes + 1)])
       case Keyed(p) => s' == At(s, t, Leaving(p)).(pools := s.pools[key := p])
       case Leaving(p) => s' == At(s, t, Returned(p)).(writer := FREE, returned := s.returned + {(key, p)})
       // and a caller may ask again, for any key
       case _ => exists k :: s' == s.(callers := s.callers[t := Caller(k, Start)])
  }

  ghost predicate Next(s: State, s': State) { exists t :: Step(s, t, s') }

  ghost predicate Run(run: seq<State>) {
    run != [] && Init(run[0]) && forall i :: 0 < i < |run| ==> Next(run[i - 1], run[i])
  }

  // ----- what every step keeps -----

  predicate Holds(pc: Pc, p: nat) { (pc.Created? || pc.Writing? || pc.Losing? || pc.Keyed?) && pc.pool == p }

  predicate InLock(pc: Pc) { pc.Writing? || pc.Losing? || pc.Keyed? || pc.Leaving? }

  ghost predicate Held(s: State, p: nat) { exists t :: 0 <= t < |s.callers| && Holds(s.callers[t].pc, p) }

  ghost predicate Published(s: State, p: nat) { exists k :: k in s.pools && s.pools[k] == p }

  /** Published pools carry their key and are open. */
  ghost predicate KeysMatch(s: State) {
    forall k :: k in s.pools ==> s.pools[k] < |s.handles| && s.handles[s.pools[k]] == Pool(Some(k), 0)
  }

  /** A pool in the hands of a caller is open and not published, and in no other hands. */
  ghost predicate Mine(s: State, t: nat, p: nat) {
    t < |s.callers| && Holds(s.callers[t].pc, p) ==> p < |s.handles| && s.handles[p].closes == 0 && !Published(s, p)
  }

  ghost predicate Alone(s: State, t: nat, u: nat, p: nat) {
    t < |s.callers| && u < |s.callers| && Holds(s.callers[t].pc, p) && Holds(s.callers[u].pc, p) ==> t == u
  }

  ghost predicate Private(s: State) { (forall t, p :: Mine(s, t, p)) && (forall t, u, p :: Alone(s, t, u, p)) }

  /** No pool is lost, none is closed twice. */
  ghost predicate Accounted(s: State) {
    forall p :: 0 <= p < |s.handles| ==>
      s.handles[p].closes <= 1 && (s.handles[p].closes == 0 ==> Held(s, p) || Published(s, p))
  }

  ghost predicate LockRight(s: State) {
    forall t :: 0 <= t < |s.callers| ==> (InLock(s.callers[t].pc) <==> s.writer == t)
  }

  ghost predicate Local(s: State, c: Caller) {
    match c.pc
    case Looked(Some(p)) => c.key in s.pools && s.pools[c.key] == p
    case Losing(_, w) => c.key in s.pools && s.pools[c.key] == w
    case Keyed(p) => c.key !in s.pools && p < |s.handles| && s.handles[p].key == Some(c.key)
    case Leaving(p) => c.key in s.pools && s.pools[c.key] == p
    case _ => true
  }

  ghost predicate Inv(s: State) {
    && KeysMatch(s) && Private(s) && Accounted(s) && LockRight(s)
    && (forall t :: 0 <= t < |s.callers| ==> Local(s, s.callers[t]))
    && (forall k, p :: (k, p) in s.returned ==> k in s.pools && s.pools[k] == p)
  }

  /** Published keys stay, with their pools. */
  ghost predicate Extends(s: State, s': State) {
    forall k :: k in s.pools ==> k in s'.pools && s'.pools[k] == s.pools[k]
  }

  lemma {:induction false} PrivateKept(s: State, t: nat, s': State)
    requires Inv(s) && Step(s, t, s')
    ensures Private(s')
  {
    hide Inv, Step, Mine, Alone;
    forall u, p ensures Mine(s', u, p) {
      MineKept(s, t, s', u, p);
    }
    forall u, w, p ensures Alone(s', u, w, p) {
      AloneKept(s, t, s', u, w, p);
    }
  }

  /** A pool gets into a caller's hands only by being created. */
  lemma {:induction false} HeldBefore(s: State, t: nat, s': State, u: nat, p: nat)
    requires Step(s, t, s') && u < |s'.callers| && Holds(s'.callers[u].pc, p)
    ensures u < |s.callers|
            && (Holds(s.callers[u].pc, p)
                 || (u == t && p == |s.handles| && s'.pools == s.pools && s'.handles == s.handles + [Pool(None, 0)]))
  {
  }

  lemma {:induction false} AloneKept(s: State, t: nat, s': State, u: nat, w: nat, p: nat)
    requires Inv(s) && Step(s, t, s')
    ensures Alone(s', u, w, p)
  {
    if u < |s'.callers| && w < |s'.callers| && Holds(s'.callers[u].pc, p) && Holds(s'.callers[w].pc, p) {
      HeldBefore(s, t, s', u, p);
      HeldBefore(s, t, s', w, p);
      assert Alone(s, u, w, p) && Mine(s, u, p) && Mine(s, w, p);
    }
    hide Step, Accounted, Local, KeysMatch, LockRight, Published;
  }

  lemma {:induction false} MineKept(s: State, t: nat, s': State, u: nat, p: nat)
    requires Inv(s) && Step(s, t, s')
    ensures Mine(s', u, p)
  {
    hide Accounted, Local, LockRight;
    if u < |s'.callers| && Holds(s'.callers[u].pc, p) {
      HeldBefore(s, t, s', u, p);
      assert Mine(s, u, p) && Alone(s, t, u, p);
    }
  }

  lemma {:induction false} AccountedKept(s: State, t: nat, s': State)
    requires Inv(s) && Step(s, t, s')
    ensures Accounted(s')
  {
    forall p | 0 <= p < |s'.handles|
      ensures s'.handles[p].closes <= 1 && (s'.handles[p].closes == 0 ==> Held(s', p) || Published(s', p))
    {
      PoolKept(s, t, s', p);
    }
  }

  lemma {:induction false} PoolKept(s: State, t: nat, s': State, p: nat)
    requires Inv(s) && Step(s, t, s') && p < |s'.handles|
    ensures s'.handles[p].closes <= 1 && (s'.handles[p].closes == 0 ==> Held(s', p) || Published(s', p))
  {
    if p < |s.handles| && s.handles[p].closes == 0 {
      if Held(s, p) {
        var u :| 0 <= u < |s.callers| && Holds(s.callers[u].pc, p);
        assert Alone(s, t, u, p);
        if u != t {
          assert Holds(s'.callers[u].pc, p);
        } else if s.callers[t].pc.Keyed? {
          assert s'.pools[s.callers[t].key] == p;
        } else {
          assert s.callers[t].pc.Losing? || Holds(s'.callers[t].pc, p);
        }
      } else {
        var k :| k in s.pools && s.pools[k] == p;
        assert s.callers[t].pc.Keyed? ==> k != s.callers[t].key;
        assert k in s'.pools && s'.pools[k] == p;
      }
    } else {
      assert p == |s.handles| ==> Holds(s'.callers[t].pc, p);
      assert Mine(s, t, p);
    }
  }

  lemma {:induction false} LocalKept(s: State, t: nat, s': State, u: nat)
    requires Inv(s) && Step(s, t, s') && u < |s'.callers|
    ensures Local(s', s'.callers[u])
  {
    assert t < |s.callers|;
    hide Accounted, KeysMatch, Private, Local, Step;
    assert Local(s, s.callers[t]);
    if u == t {
      OwnKept(s, t, s');
    } else {
      SameCallers(s, t, s', u);
      assert Local(s, s.callers[u]);
      assert !(InLock(s.callers[u].pc) && InLock(s.callers[t].pc));
      OtherKept(s, t, s', u);
    }
  }

  lemma {:induction false} SameCallers(s: State, t: nat, s': State, u: nat)
    requires Step(s, t, s') && u < |s'.callers| && u != t
    ensures u < |s.callers| && s'.callers[u] == s.callers[u]
  {
  }

  lemma {:induction false} OwnKept(s: State, t: nat, s': State)
    requires Step(s, t, s') && t < |s'.callers| && Local(s, s.callers[t])
    ensures Local(s', s'.callers[t])
  {
  }

  lemma {:induction false} OtherKept(s: State, t: nat, s': State, u: nat)
    requires Step(s, t, s') && u < |s.callers| && u != t && u < |s'.callers| && s'.callers[u] == s.callers[u]
    requires Local(s, s.callers[u]) && Local(s, s.callers[t])
    requires !(InLock(s.callers[u].pc) && InLock(s.callers[t].pc))
    ensures Local(s', s'.callers[u])
  {
  }

  lemma {:induction false} KeyKept(s: State, t: nat, s': State, k: string)
    requires Inv(s) && Step(s, t, s')
    ensures k in s.pools ==> k in s'.pools && s'.pools[k] == s.pools[k]
    ensures k in s'.pools ==> s'.pools[k] < |s'.handles| && s'.handles[s'.pools[k]] == Pool(Some(k), 0)
  {
    hide Accounted, LockRight;
    assert Local(s, s.callers[t]);
    var pc := s.callers[t].pc;
    if pc.Writing? || pc.Losing? || pc.Keyed? {
      assert Mine(s, t, pc.pool);
    }
  }

  lemma {:induction false} KeysKept(s: State, t: nat, s': State)
    requires Inv(s) && Step(s, t, s')
    ensures KeysMatch(s') && Extends(s, s')
  {
    hide Inv, Step;
    forall k | k in s'.pools ensures s'.pools[k] < |s'.handles| && s'.handles[s'.pools[k]] == Pool(Some(k), 0) {
      KeyKept(s, t, s', k);
    }
    forall k | k in s.pools ensures k in s'.pools && s'.pools[k] == s.pools[k] {
      KeyKept(s, t, s', k);
    }
  }

  lemma {:induction false} LockKept(s: State, t: nat, s': State)
    requires Inv(s) && Step(s, t, s')
    ensures LockRight(s')
  {
    hide Accounted, KeysMatch, Private, Local;
    assert forall u :: 0 <= u < |s.callers| ==> (InLock(s.callers[u].pc) <==> s.writer == u);
  }

  lemma {:induction false} AnswersKept(s: State, t: nat, s': State)
    requires Inv(s) && Step(s, t, s')
    ensures forall k, p :: (k, p) in s'.returned ==> k in s'.pools && s'.pools[k] == p
  {
    hide Accounted, KeysMatch, Private, LockRight;
    assert Local(s, s.callers[t]);
  }

  lemma {:induction false} StepKeeps(s: State, t: nat, s': State)
    requires Inv(s) && Step(s, t, s')
    ensures Inv(s') && Extends(s, s')
  {
    PrivateKept(s, t, s');
    AccountedKept(s, t, s');
    KeysKept(s, t, s');
    LockKept(s, t, s');
    AnswersKept(s, t, s');
    forall u | 0 <= u < |s'.callers| ensures Local(s', s'.callers[u]) {
      LocalKept(s, t, s', u);
    }
  }

  // ----- over whole runs -----

  lemma {:induction false} Always(run: seq<State>, i: nat)
    requires Run(run) && i < |run|
    ensures Inv(run[i])
  {
    if i > 0 {
      Always(run, i - 1);
      var t :| Step(run[i - 1], t, run[i]);
      hide Inv, Step;
      StepKeeps(run[i - 1], t, run[i]);
    }
  }

  /** A key, once published, has one pool forever; that pool carries the key and is never closed. */
  lemma {:induction false} OnePoolForever(run: seq<State>, i: nat, j: nat, key: string)
    requires Run(run) && i <= j < |run| && key in run[i].pools
    ensures key in run[j].pools && run[j].pools[key] == run[i].pools[key]
    ensures run[i].pools[key] < |run[j].handles| && run[j].handles[run[i].pools[key]] == Pool(Some(key), 0)
    decreases j
  {
    hide Step, Private, Accounted, LockRight, Local;
    Always(run, j);
    if i < j {
      OnePoolForever(run, i, j - 1, key);
      Grows(run, j);
    }
  }

  lemma {:induction false} Grows(run: seq<State>, j: nat)
    requires Run(run) && 0 < j < |run|
    ensures Extends(run[j - 1], run[j])
  {
    hide Inv, Step;
    Always(run, j - 1);
    assert Next(run[j - 1], run[j]);
    var t :| Step(run[j - 1], t, run[j]);
    StepKeeps(run[j - 1], t, run[j]);
  }

  /** Any two answers for a key, whenever and to whomever given, are the same pool. */
  lemma {:induction false} SameAnswer(run: seq<State>, i: nat, j: nat, key: string, p: nat, q: nat)
    requires Run(run) && i <= j < |run| && (key, p) in run[i].returned && (key, q) in run[j].returned
    ensures p == q
  {
    Always(run, i);
    Always(run, j);
    OnePoolForever(run, i, j, key);
  }

  /** When no caller has a pool in hand, every pool ever created is either
      open and published under exactly one key, or was closed exactly once. */
  lemma {:induction false} NothingLost(run: seq<State>, i: nat, p: nat)
    requires Run(run) && i < |run| && p < |run[i].handles| && !Held(run[i], p)
    ensures var s := run[i];
            if Published(s, p)
            then
              && s.handles[p].closes == 0
              && forall k, l :: k in s.pools && s.pools[k] == p && l in s.pools && s.pools[l] == p ==> k == l
            else s.handles[p].closes == 1
  {
    Always(run, i);
  }

  // ----- there is an answer -----

  lemma {:induction false} Extend(run: seq<State>, t: nat, s': State)
    requires Run(run) && Step(run[|run| - 1], t, s')
    ensures Run(run + [s'])
  {
    hide Step;
    var longer := run + [s'];
    forall i | 0 < i < |longer| ensures Next(longer[i - 1], longer[i]) {
      if i < |run| {
        assert Next(run[i - 1], run[i]);
      }
    }
  }

  /** Nobody reads or holds the lock. */
  ghost predicate Quiet(s: State) {
    forall u :: 0 <= u < |s.callers| ==> !InLock(s.callers[u].pc) && s.callers[u].pc != Reading
  }

  /** The lock is only ever held by one of the callers. */
  lemma {:induction false} WriterIsCaller(run: seq<State>, i: nat)
    requires Run(run) && i < |run|
    ensures run[i].writer == FREE || 0 <= run[i].writer < |run[i].callers|
  {
    if i > 0 {
      WriterIsCaller(run, i - 1);
      var t :| Step(run[i - 1], t, run[i]);
    }
  }

  lemma {:induction false} QuietIsFree(run: seq<State>)
    requires Run(run) && Quiet(run[|run| - 1])
    ensures run[|run| - 1].writer == FREE && NoReaders(run[|run| - 1])
  {
    var s := run[|run| - 1];
    Always(run, |run| - 1);
    WriterIsCaller(run, |run| - 1);
    hide Run, Private, Accounted, KeysMatch, Local, LockRight;
    if 0 <= s.writer < |s.callers| {
      NotWriting(s, s.writer);
    }
  }

  lemma {:induction false} NotWriting(s: State, t: nat)
    requires LockRight(s) && Quiet(s) && t < |s.callers|
    ensures s.writer != t
  {
    assert !InLock(s.callers[t].pc);
  }

  /** From the start to the look at the map. */
  lemma {:induction false} LookUp(run: seq<State>, t: nat) returns (longer: seq<State>)
    requires Run(run) && Quiet(run[|run| - 1]) && t < |run[|run| - 1].callers| && run[|run| - 1].callers[t].pc == Start
    ensures run <= longer && Run(longer)
    ensures var s := run[|run| - 1];
            longer[|longer| - 1] == At(s, t, Looked(Lookup(s.pools, s.callers[t].key))) && Quiet(longer[|longer| - 1])
  {
    var s := run[|run| - 1];
    QuietIsFree(run);
    hide Run;
    var reading := At(s, t, Reading);
    Extend(run, t, reading);
    var looked := At(reading, t, Looked(Lookup(s.pools, s.callers[t].key)));
    Extend(run + [reading], t, looked);
    longer := run + [reading] + [looked];
    assert looked == At(s, t, Looked(Lookup(s.pools, s.callers[t].key)));
  }

  /** From there to the answer, when the key is not in the map. */
  lemma {:induction false} CreateAndPublish(run: seq<State>, t: nat, key: string) returns (longer: seq<State>, p: nat)
    requires Run(run) && Quiet(run[|run| - 1]) && t < |run[|run| - 1].callers|
    requires run[|run| - 1].callers[t] == Caller(key, Looked(None)) && key !in run[|run| - 1].pools
    ensures run <= longer && Run(longer)
    ensures var s := longer[|longer| - 1];
            t < |s.callers| && s.callers[t] == Caller(key, Returned(p)) && key in s.pools && s.pools[key] == p
  {
    var s := run[|run| - 1];
    QuietIsFree(run);
    hide Run;
    p := |s.handles|;
    var created := At(s, t, Created(p)).(handles := s.handles + [Pool(None, 0)]);
    Extend(run, t, created);
    var writing := At(created, t, Writing(p)).(writer := t);
    Extend(run + [created], t, writing);
    var keyed := At(writing, t, Keyed(p)).(handles := writing.handles[p := Pool(Some(key), 0)]);
    Extend(run + [created] + [writing], t, keyed);
    var leaving := At(keyed, t, Leaving(p)).(pools := keyed.pools[key := p]);
    Extend(run + [created] + [writing] + [keyed], t, leaving);
    var done := At(leaving, t, Returned(p)).(writer := FREE, returned := leaving.returned + {(key, p)});
    Extend(run + [created] + [writing] + [keyed] + [leaving], t, done);
    longer := run + [created] + [writing] + [keyed] + [leaving] + [done];
  }

  /** When nobody reads or holds the lock, any caller that has not begun or is
      done can get an answer for any key: the pool in the map under that key. */
  lemma {:induction false} Answered(run: seq<State>, t: nat, key: string) returns (longer: seq<State>, p: nat)
    requires Run(run) && Quiet(run[|run| - 1]) && t < |run[|run| - 1].callers|
    requires var c := run[|run| - 1].callers[t]; c == Caller(key, Start) || c.pc.Returned? || c.pc.Failed?
    ensures run <= longer && Run(longer)
    ensures var s := longer[|longer| - 1];
            t < |s.callers| && s.callers[t] == Caller(key, Returned(p)) && key in s.pools && s.pools[key] == p
  {
    var s := run[|run| - 1];
    longer := run;
    if s.callers[t] != Caller(key, Start) {
      var again := s.(callers := s.callers[t := Caller(key, Start)]);
      Extend(run, t, again);
      longer := run + [again];
    }
    var begun := longer;
    longer := LookUp(begun, t);
    var looked := longer[|longer| - 1];
    if key in looked.pools {
      p := looked.pools[key];
      var done := At(looked, t, Returned(p)).(returned := looked.returned + {(key, p)});
      Extend(longer, t, done);
      longer := longer + [done];
    } else {
      var found := longer;
      longer, p := CreateAndPublish(found, t, key);
    }
  }
}
