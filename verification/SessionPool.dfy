/** Sessions going out of and back into an OCI session pool (odpi/src/dpiConn.c). */
module SessionPool {
  import opened Wrappers

  /** The time kept with a session, and its network settings. */
  datatype Session = Session(lastUsed: Option<int>, timeout: int, breakOnTimeout: bool)

  /** What OCI and the clock answer in each round of the loop: which session of
      the pool is chosen (any other number stands for a new one), whether a ping
      of the session with its settings of the moment comes back, and what time
      it is. */
  type Choice = (set<nat>, nat) -> nat
  type Ping = (nat, Session, nat) -> bool
  type Clock = nat -> int

  /** What another caller does between two rounds: take a session out of the
      pool or a fresh one, close one back, or let one go. */
  datatype Turn = Take(id: nat, blank: Session) | GiveBack(id: nat, now: int) | LetGo(id: nat)

  function Closes(turns: seq<Turn>): nat {
    if turns == [] then 0 else Closes(turns[..|turns| - 1]) + if turns[|turns| - 1].GiveBack? then 1 else 0
  }

  /** ... in all rounds before this one. */
  function ClosesBefore(others: nat -> seq<Turn>, round: nat): nat {
    if round == 0 then 0 else ClosesBefore(others, round - 1) + Closes(others(round - 1))
  }

  lemma {:induction false} NoCloses(others: nat -> seq<Turn>)
    ensures ClosesBefore(others, 0) == 0
  {
  }

  lemma {:induction false} MoreCloses(others: nat -> seq<Turn>, round: nat)
    ensures ClosesBefore(others, round + 1) == ClosesBefore(others, round) + Closes(others(round))
  {
  }

  function Used(m: map<nat, Session>): set<nat> { set id | id in m && m[id].lastUsed.Some? }

  function Elements(s: seq<nat>): set<nat> { set x | x in s }

  /** A session carries a time exactly if it was ever closed back, and a cell is
      allocated for every such session, and for those that did not answer. */
  ghost predicate Ledger(idle: map<nat, Session>, busy: map<nat, Session>, next: nat, closedBack: set<nat>,
          cells: set<nat>, unanswered: set<nat>) {
    && idle.Keys !! busy.Keys
    && (forall id :: id in idle || id in busy || id in closedBack || id in unanswered ==> id < next)
    && (forall id :: id in idle ==> (idle[id].lastUsed.Some? <==> id in closedBack))
    && (forall id :: id in busy ==> (busy[id].lastUsed.Some? <==> id in closedBack))
    && unanswered !! idle.Keys && unanswered !! busy.Keys
    && cells == Used(idle) + Used(busy) + unanswered
  }

  lemma {:induction false} HandOut(idle: map<nat, Session>, busy: map<nat, Session>, next: nat, closedBack: set<nat>,
          cells: set<nat>, unanswered: set<nat>, id: nat)
    requires Ledger(idle, busy, next, closedBack, cells, unanswered) && id in idle
    ensures id !in busy && (idle[id].lastUsed.Some? <==> id in closedBack)
    ensures Ledger(idle - {id}, busy[id := idle[id]], next, closedBack, cells, unanswered)
  {
  }

  lemma {:induction false} HandOutNew(idle: map<nat, Session>, busy: map<nat, Session>, next: nat,
          closedBack: set<nat>, cells: set<nat>, unanswered: set<nat>, blank: Session)
    requires Ledger(idle, busy, next, closedBack, cells, unanswered) && blank.lastUsed == None
    ensures next !in busy && next !in idle && next !in closedBack
    ensures Ledger(idle, busy[next := blank], next + 1, closedBack, cells, unanswered)
  {
    assert Used(busy[next := blank]) == Used(busy);
  }

  lemma {:induction false} GiveUp(idle: map<nat, Session>, busy: map<nat, Session>, next: nat, closedBack: set<nat>,
          cells: set<nat>, unanswered: set<nat>, id: nat)
    requires Ledger(idle, busy, next, closedBack, cells, unanswered) && id in idle && idle[id].lastUsed.Some?
    ensures Ledger(idle - {id}, busy, next, closedBack, cells, unanswered + {id})
  {
  }

  lemma {:induction false} TakeBack(idle: map<nat, Session>, busy: map<nat, Session>, next: nat, closedBack: set<nat>,
          cells: set<nat>, unanswered: set<nat>, id: nat, s: Session)
    requires Ledger(idle, busy, next, closedBack, cells, unanswered) && id in busy && s.lastUsed.Some?
    ensures Ledger(idle[id := s], busy - {id}, next, closedBack + {id}, cells + {id}, unanswered)
    ensures busy[id].lastUsed.Some? ==> id in cells
  {
    assert Used(idle[id := s]) == Used(idle) + {id};
    assert Used(busy - {id}) == Used(busy) - {id};
  }

  lemma {:induction false} Dismiss(idle: map<nat, Session>, busy: map<nat, Session>, next: nat, closedBack: set<nat>,
          cells: set<nat>, unanswered: set<nat>, id: nat)
    requires Ledger(idle, busy, next, closedBack, cells, unanswered) && id in busy
    ensures Ledger(idle, busy - {id}, next, closedBack, cells - {id}, unanswered)
    ensures busy[id].lastUsed.None? ==> id !in cells
  {
    assert Used(busy - {id}) == Used(busy) - {id};
  }

  lemma {:induction false} FewerUsed(m: map<nat, Session>, id: nat)
    requires id in m
    ensures |Used(m - {id})| == |Used(m)| - if m[id].lastUsed.Some? then 1 else 0
  {
    assert Used(m - {id}) == Used(m) - {id};
  }

  /** A session that leaves was used, or makes no difference. */
  lemma {:induction false} RoundUsed(m: map<nat, Session>, id: nat)
    ensures |Used(m - {id})| <= |Used(m)|
    ensures id in m && m[id].lastUsed.Some? ==> |Used(m - {id})| == |Used(m)| - 1
  {
    if id in m {
      FewerUsed(m, id);
    } else {
      assert m - {id} == m;
    }
  }

  lemma {:induction false} MoreUsed(m: map<nat, Session>, id: nat, s: Session)
    requires id !in m
    ensures |Used(m[id := s])| <= |Used(m)| + 1
  {
    assert Used(m[id := s]) <= Used(m) + {id};
    Fewer(Used(m[id := s]), Used(m) + {id});
  }

  lemma {:induction false} Fewer(a: set<nat>, b: set<nat>)
    requires a <= b
    ensures |a| <= |b|
  {
    if a != {} {
      var x :| x in a;
      Fewer(a - {x}, b - {x});
    }
  }

  class Sessions {
    const pingInterval: int
    const pingTimeout: int
    const version: int

    var idle: map<nat, Session>
    var busy: map<nat, Session>
    var next: nat

    /** The sessions that were ever closed back into the pool; the time cells
        that are allocated; the sessions dropped because of a failed ping. */
    ghost var closedBack: set<nat>
    ghost var cells: set<nat>
    ghost var unanswered: set<nat>

    ghost predicate Valid()
      reads this
    {
      Ledger(idle, busy, next, closedBack, cells, unanswered)
    }

    /** The minimum number of sessions is there from the start. */
    constructor (interval: int, timeout: int, version: int, sessions: seq<Session>)
      requires forall i :: 0 <= i < |sessions| ==> sessions[i].lastUsed == None
      ensures Valid() && pingInterval == interval && pingTimeout == timeout && this.version == version
      ensures busy == map[] && cells == {} && idle == map i: nat | i < |sessions| :: sessions[i]
    {
      pingInterval, pingTimeout, this.version := interval, timeout, version;
      idle, busy, next := map i: nat | i < |sessions| :: sessions[i], map[], |sessions|;
      closedBack, cells, unanswered := {}, {}, {};
    }

    /** Whether a session that was used before may go out without a ping. */
    predicate Recent(s: Session, now: int)
      requires s.lastUsed.Some?
    {
      pingInterval < 0 || s.lastUsed.value + pingInterval > now
    }

    /** A session with the settings under which it is pinged. */
    function Hurried(s: Session): Session {
      s.(timeout := pingTimeout, breakOnTimeout := if version >= 12 then false else s.breakOnTimeout)
    }

    /** One round: a session is chosen, and pinged unless it is new or recent. */
    method Acquire(choose: Choice, ping: Ping, clock: Clock, blank: Session, round: nat)
      returns (id: nat, good: bool, isNew: bool)
      requires Valid() && blank.lastUsed == None
      modifies this`idle, this`busy, this`next, this`unanswered
      ensures Valid() && id !in old(busy) && (id in old(idle) || id == old(next)) && idle == old(idle) - {id}
      ensures good ==>
              busy == old(busy)[id := if id in old(idle) then old(idle)[id] else blank] && unanswered == old(unanswered)
      ensures good ==> (isNew <==> id !in closedBack)
      ensures good && !isNew ==>
        id in old(idle) && old(idle)[id].lastUsed.Some?
          && (Recent(old(idle)[id], clock(round)) || ping(id, Hurried(old(idle)[id]), round))
      ensures !good ==>
        && id in old(idle) && Stale(old(idle)[id], id, ping, clock, round)
        && busy == old(busy) && unanswered == old(unanswered) + {id} && next == old(next)
    {
      hide Ledger, Used;
      good, isNew := true, false;
      id := choose(idle.Keys, round);
      var s := blank;
      ghost var was := idle;
      if id in idle {
        HandOut(idle, busy, next, closedBack, cells, unanswered, id);
        s := idle[id];
        idle := idle - {id};
      } else {
        HandOutNew(idle, busy, next, closedBack, cells, unanswered, blank);
        id := next;
        next := next + 1;
        assert idle == was - {id};
      }
      if s.lastUsed.None? {
        isNew := true;
      } else if !(pingInterval < 0 || s.lastUsed.value + pingInterval > clock(round)) {
        var savedTimeout := s.timeout;
        s := s.(timeout := pingTimeout);
        var savedBreak := s.breakOnTimeout;
        if version >= 12 {
          s := s.(breakOnTimeout := false);
        }
        good := ping(id, s, round);
        if good {
          s := s.(timeout := savedTimeout);
          if version >= 12 {
            s := s.(breakOnTimeout := savedBreak);
          }
        } else {
          GiveUp(was, busy, next, closedBack, cells, unanswered, id);
          unanswered := unanswered + {id};
          return;
        }
      }
      busy := busy[id := s];
    }

    /** Used before, not recently, and not answering. */
    ghost predicate Stale(s: Session, id: nat, ping: Ping, clock: Clock, round: nat) {
      s.lastUsed.Some? && !Recent(s, clock(round)) && !ping(id, Hurried(s), round)
    }

    ghost predicate AllStale(m: map<nat, Session>, drops: seq<nat>, ping: Ping, clock: Clock) {
      forall k :: 0 <= k < |drops| ==> drops[k] in m && Stale(m[drops[k]], drops[k], ping, clock, k)
    }

    lemma {:induction false} NoneStale(o: map<nat, Session>, u: set<nat>, ping: Ping, clock: Clock)
      ensures AllStale(o, [], ping, clock) && o == o - Elements([]) && u == u + Elements([])
    {
    }

    lemma {:induction false} OneMoreStale(o: map<nat, Session>, m: map<nat, Session>, drops: seq<nat>, id: nat,
            ping: Ping, clock: Clock)
      requires AllStale(o, drops, ping, clock) && m == o - Elements(drops) && id in m
               && Stale(m[id], id, ping, clock, |drops|)
      ensures AllStale(o, drops + [id], ping, clock) && m - {id} == o - Elements(drops + [id])
              && Elements(drops + [id]) == Elements(drops) + {id}
    {
    }

    lemma {:induction false} Untouched(o: map<nat, Session>, m: map<nat, Session>, drops: seq<nat>, id: nat,
            ping: Ping, clock: Clock)
      requires AllStale(o, drops, ping, clock) && m == o - Elements(drops) && (id in m || id !in o)
      ensures id !in drops && (id in o <==> id in m) && (id in o ==> o[id] == m[id])
    {
    }

    /** dpiConn__getSession.  `drops` are the sessions given up on the way, one
        a round; the loop ends because the pool runs out of them. */
    method GetSession(choose: Choice, ping: Ping, clock: Clock, blank: Session)
      returns (id: nat, isNew: bool, ghost drops: seq<nat>)
      requires Valid() && blank.lastUsed == None
      modifies this`idle, this`busy, this`next, this`unanswered
      ensures Valid()
      ensures AllStale(old(idle), drops, ping, clock)
      ensures idle == old(idle) - Elements(drops) - {id} && id !in drops
              && unanswered == old(unanswered) + Elements(drops)
      ensures busy == old(busy)[id := if id in old(idle) then old(idle)[id] else blank] && id !in old(busy)
      ensures id in old(idle) || id == old(next)
      ensures isNew <==> id !in closedBack
      ensures !isNew ==>
        id in old(idle) && old(idle)[id].lastUsed.Some?
          && (Recent(old(idle)[id], clock(|drops|)) || ping(id, Hurried(old(idle)[id]), |drops|))
    {
      HandOutNew(idle, busy, next, closedBack, cells, unanswered, blank);
      hide Ledger, AllStale, Stale, Recent, Elements, Used;
      var round, good := 0, false;
      drops := [];
      NoneStale(idle, unanswered, ping, clock);
      while true
        invariant Valid() && round == |drops| && next == old(next) && busy == old(busy)
                  && AllStale(old(idle), drops, ping, clock)
        invariant idle == old(idle) - Elements(drops) && unanswered == old(unanswered) + Elements(drops)
        decreases idle.Keys
      {
        ghost var was := idle;
        id, good, isNew := Acquire(choose, ping, clock, blank, round);
        Untouched(old(idle), was, drops, id, ping, clock);
        if good {
          break;
        }
        OneMoreStale(old(idle), was, drops, id, ping, clock);
        drops := drops + [id];
        round := round + 1;
      }
    }

    /** What another caller does; a turn that cannot be taken is passed over. */
    method Disturb(turn: Turn)
      requires Valid()
      modifies this
      ensures Valid() && |Used(idle)| <= |Used(old(idle))| + if turn.GiveBack? then 1 else 0
    {
      match turn
      case Take(id, blank) =>
        if id in idle {
          HandOut(idle, busy, next, closedBack, cells, unanswered, id);
          FewerUsed(idle, id);
          busy := busy[id := idle[id]];
          idle := idle - {id};
        } else {
          HandOutNew(idle, busy, next, closedBack, cells, unanswered, blank.(lastUsed := None));
          busy := busy[next := blank.(lastUsed := None)];
          next := next + 1;
        }
      case GiveBack(id, now) =>
        if id in busy {
          MoreUsed(idle, id, busy[id].(lastUsed := Some(now)));
          var dropped := Close(id, false, false, true, now);
        }
      case LetGo(id) =>
        if id in busy {
          var dropped := Close(id, true, false, true, 0);
        }
    }

    method DisturbAll(turns: seq<Turn>)
      requires Valid()
      modifies this
      ensures Valid() && |Used(idle)| <= |Used(old(idle))| + Closes(turns)
    {
      hide Ledger, Used;
      for i := 0 to |turns|
        invariant Valid() && |Used(idle)| <= |Used(old(idle))| + Closes(turns[..i])
      {
        assert turns[..i + 1][..i] == turns[..i];
        Disturb(turns[i]);
      }
      assert turns[..|turns|] == turns;
    }

    /** dpiConn__getSession among other callers, who take their turns before
        each round.  A round fails for a session that was used before, so there
        are no more such rounds than there were used sessions in the pool and
        sessions closed back meanwhile; the loop ends if `total` bounds these. */
    method GetSessionAmong(choose: Choice, ping: Ping, clock: Clock, blank: Session, others: nat -> seq<Turn>,
            ghost total: nat)
      returns (id: nat, isNew: bool, failed: nat)
      requires Valid() && blank.lastUsed == None
      requires forall round: nat :: ClosesBefore(others, round) <= total
      modifies this
      ensures Valid() && id in busy && (isNew <==> id !in closedBack)
      ensures failed + |Used(idle)| <= |Used(old(idle))| + ClosesBefore(others, failed + 1)
      ensures !isNew ==>
              && busy[id].lastUsed.Some?
              && (Recent(busy[id], clock(failed)) || ping(id, Hurried(busy[id]), failed))
    {
      hide Ledger, Used, ClosesBefore, Closes, Recent, Hurried;
      failed := 0;
      NoCloses(others);
      while true
        invariant Valid() && failed + |Used(idle)| <= |Used(old(idle))| + ClosesBefore(others, failed)
        decreases |Used(old(idle))| + total - failed
      {
        MoreCloses(others, failed);
        DisturbAll(others(failed));
        ghost var was := idle;
        var good;
        id, good, isNew := Acquire(choose, ping, clock, blank, failed);
        RoundUsed(was, id);
        if good {
          break;
        }
        StaleUsed(was[id], id, ping, clock, failed);
        failed := failed + 1;
      }
    }

    lemma {:induction false} StaleUsed(s: Session, id: nat, ping: Ping, clock: Clock, round: nat)
      requires Stale(s, id, ping, clock, round)
      ensures s.lastUsed.Some?
    {
    }

    /** The pooled part of dpiConn__close.  A session that is dead, to be
        dropped, or whose server is gone leaves the pool and its cell is freed;
        any other comes back with the time. */
    method Close(id: nat, drop: bool, dead: bool, serverNormal: bool, now: int) returns (dropped: bool)
      requires Valid() && id in busy
      modifies this
      ensures Valid() && dropped == (dead || drop || !serverNormal) && next == old(next)
              && unanswered == old(unanswered)
      ensures busy == old(busy) - {id}
      ensures idle == if dropped then old(idle) else old(idle)[id := old(busy)[id].(lastUsed := Some(now))]
      ensures closedBack == if dropped then old(closedBack) else old(closedBack) + {id}
      ensures dropped ==> id !in cells
    {
      var s := busy[id];
      dropped := dead;
      if drop {
        dropped := true;
      } else if !serverNormal {
        dropped := true;
      }
      TakeBack(idle, busy, next, closedBack, cells, unanswered, id, s.(lastUsed := Some(now)));
      Dismiss(idle, busy, next, closedBack, cells, unanswered, id);
      hide Ledger, Used;
      if s.lastUsed.Some? && dropped {
        cells := cells - {id};
        s := s.(lastUsed := None);
      } else if s.lastUsed.None? && !dropped {
        cells := cells + {id};
        s := s.(lastUsed := Some(0));
      }
      if s.lastUsed.Some? {
        s := s.(lastUsed := Some(now));
      }
      assert dropped ==> cells == old(cells) - {id};
      assert !dropped ==> cells == old(cells) + {id};
      busy := busy - {id};
      if !dropped {
        idle := idle[id := s];
        closedBack := closedBack + {id};
      }
    }
  }
}
