/** The variable handles of a statement's bind slots (stmt.go, conn.go). */
module BindSlots {
  import opened Wrappers

  /** A handle, whether its data is there, and what it was made for. */
  datatype Slot = Slot(handle: Option<nat>, data: bool, info: int)

  /** An argument: the variable it needs, and what may go wrong with it: it may
      be refused, its variable may not be created, its value not be set. */
  datatype Arg = Arg(info: int, refused: bool, noVar: bool, notSet: bool)

  const EMPTY := Slot(None, false, 0)

  function Handles(slots: seq<Slot>): set<nat> {
    set i | 0 <= i < |slots| && slots[i].handle.Some? :: slots[i].handle.value
  }

  ghost predicate Distinct(slots: seq<Slot>) {
    && (forall i :: 0 <= i < |slots| ==> (slots[i].data <==> slots[i].handle.Some?))
    && (forall i, j :: 0 <= i < j < |slots| && slots[i].handle.Some? && slots[j].handle.Some? ==>
         slots[i].handle.value != slots[j].handle.value)
  }

  /** Replacing one slot. */
  lemma {:induction false} Replace(slots: seq<Slot>, i: nat, s: Slot)
    requires i < |slots| && Distinct(slots) && (s.data <==> s.handle.Some?)
    requires s.handle.Some? ==> s.handle.value !in Handles(slots)
    ensures Distinct(slots[i := s])
    ensures Handles(slots[i := s]) ==
            Handles(slots) - (if slots[i].handle.Some? then {slots[i].handle.value} else {})
            + (if s.handle.Some? then {s.handle.value} else {})
  {
    var rest := Handles(slots) - (if slots[i].handle.Some? then {slots[i].handle.value} else {});
    forall h | h in rest ensures h in Handles(slots[i := s]) {
      var k :| 0 <= k < |slots| && slots[k].handle == Some(h);
      assert slots[i := s][k].handle == Some(h);
    }
    assert s.handle.Some? ==> slots[i := s][i].handle == Some(s.handle.value);
  }

  /** The slot holds a handle that was made for the same. */
  predicate Suits(s: Slot, a: Arg) { s.handle.Some? && s.info == a.info }

  /** An argument that gets its variable and its value, given the slot it finds. */
  predicate Works(s: Slot, a: Arg) { !a.refused && !a.notSet && (!a.noVar || Suits(s, a)) }

  /** The slots after making room for n arguments: a longer array starts empty. */
  function Resized(slots: seq<Slot>, n: nat): seq<Slot> { if |slots| < n then seq(n, _ => EMPTY) else slots }

  lemma {:induction false} FreshSlots(n: nat, made: map<nat, int>)
    ensures Distinct(seq(n, _ => EMPTY)) && Handles(seq(n, _ => EMPTY)) == {} && Labelled(seq(n, _ => EMPTY), made)
  {
  }

  lemma {:induction false} InSlot(slots: seq<Slot>, i: nat, made: map<nat, int>)
    requires i < |slots| && slots[i].handle.Some? && Labelled(slots, made)
    ensures slots[i].handle.value in Handles(slots)
    ensures slots[i].handle.value in made && made[slots[i].handle.value] == slots[i].info
  {
  }

  /** Slot i holds a live handle made for the argument. */
  ghost predicate Serves(s: Slot, a: Arg, live: set<nat>, made: map<nat, int>) {
    && s.handle.Some? && s.info == a.info && s.handle.value in live
    && s.handle.value in made && made[s.handle.value] == a.info
  }

  /** The labels of the slots say what their handles were made for. */
  ghost predicate Labelled(slots: seq<Slot>, made: map<nat, int>) {
    forall i :: 0 <= i < |slots| && slots[i].handle.Some? ==>
      slots[i].handle.value in made && made[slots[i].handle.value] == slots[i].info
  }

  lemma {:induction false} NextHandle(vars: seq<Slot>, i: nat)
    requires i < |vars| && Distinct(vars)
    ensures Handles(vars[i..]) == Handles(vars[i + 1..]) + (if vars[i].handle.Some? then {vars[i].handle.value} else {})
    ensures vars[i].handle.Some? ==> vars[i].handle.value !in Handles(vars[i + 1..])
  {
    forall h | h in Handles(vars[i..]) ensures h in Handles(vars[i + 1..]) || vars[i].handle == Some(h) {
      var k :| 0 <= k < |vars[i..]| && vars[i..][k].handle == Some(h);
      assert k > 0 ==> vars[i + 1..][k - 1].handle == Some(h);
    }
    forall h | h in Handles(vars[i + 1..]) ensures h in Handles(vars[i..]) {
      var k :| 0 <= k < |vars[i + 1..]| && vars[i + 1..][k].handle == Some(h);
      assert vars[i..][k + 1].handle == Some(h);
    }
    assert vars[i..][0] == vars[i];
  }

  class Binds {
    /** The slots up to the capacity, and how many are in use. */
    var slots: seq<Slot>
    var used: nat
    var open: bool
    var next: nat

    /** Handles not yet released, those no slot knows any more, and what each
        handle was made for. */
    ghost var live: set<nat>
    ghost var lost: set<nat>
    ghost var made: map<nat, int>

    ghost predicate Valid()
      reads this
    {
      && used <= |slots| && Distinct(slots)
      && live == Handles(slots) + lost && Handles(slots) !! lost
      && (forall h :: h in live ==> h < next)
      && Labelled(slots, made) && (forall h :: h in made ==> h < next)
      && (!open ==> slots == [])
    }

    constructor ()
      ensures Valid() && open && slots == [] && live == {} && lost == {}
    {
      slots, used, open, next, live, lost, made := [], 0, true, 0, {}, {}, map[];
    }

    /** dpiVar_release: only ever of a handle that was not released before. */
    method Release(h: nat)
      requires h in live
      modifies this`live
      ensures live == old(live) - {h}
    {
      live := live - {h};
    }

    /** newVar: the one place where it is recorded what a handle is made for. */
    method NewVar(info: int, fails: bool) returns (h: Option<nat>)
      modifies this`live, this`next, this`made
      ensures fails ==> h == None && unchanged(this)
      ensures !fails ==> h == Some(old(next)) && next == old(next) + 1 && live == old(live) + {old(next)}
      ensures !fails ==> made == old(made)[old(next) := info]
    {
      if fails {
        return None;
      }
      h := Some(next);
      live := live + {next};
      made := made[next := info];
      next := next + 1;
    }

    /** One slot of bindVars: reused if it was made for the same, else replaced. */
    method Prepare(i: nat, a: Arg) returns (ok: bool)
      requires Valid() && open && i < used
      modifies this`slots, this`live, this`next, this`made
      ensures Valid() && |slots| == |old(slots)| && lost == old(lost)
      ensures forall h :: h in old(made) ==> h in made && made[h] == old(made)[h]
      ensures forall k :: 0 <= k < |slots| && k != i ==> slots[k] == old(slots)[k]
      ensures ok <==> !a.noVar || (old(slots)[i].handle.Some? && old(slots)[i].info == a.info)
      ensures ok ==> slots[i].handle.Some? && slots[i].info == a.info
      ensures ok ==> slots[i].handle.value in made && made[slots[i].handle.value] == a.info
      ensures old(slots)[i].handle.Some? && old(slots)[i].info == a.info ==> slots == old(slots) && live == old(live)
      ensures old(slots)[i].handle.Some? && old(slots)[i].info != a.info ==>
              old(slots)[i].handle.value !in live && slots[i].handle != old(slots)[i].handle
      ensures !Suits(old(slots)[i], a) && ok ==> slots[i].handle == Some(old(next)) && slots[i].handle.value in live
    {
      ok := true;
      var mustAllocate := slots[i].handle.None? || !slots[i].data;
      if !mustAllocate && slots[i].info != a.info {
        Release(slots[i].handle.value);
        mustAllocate := true;
      }
      if mustAllocate {
        var h := NewVar(a.info, a.noVar);
        if h.None? {
          Replace(slots, i, slots[i].(handle := None, data := false));
          slots := slots[i := slots[i].(handle := None, data := false)];
          return false;
        }
        Replace(slots, i, Slot(h, true, a.info));
        slots := slots[i := Slot(h, true, a.info)];
      }
    }

    /** bindVars.  `bound` are the handles the statement is executed with. */
    method BindVars(args: seq<Arg>) returns (ok: bool, bound: seq<nat>)
      requires Valid() && open
      modifies this`slots, this`used, this`live, this`next, this`lost, this`made
      ensures Valid() && |slots| == |Resized(old(slots), |args|)|
      ensures lost == old(lost) + if |old(slots)| < |args| then Handles(old(slots)) else {}
      ensures ok <==> forall i :: 0 <= i < |args| ==> Works(Resized(old(slots), |args|)[i], args[i])
      ensures forall i :: 0 <= i < |slots| && (i < |args| ==> Suits(Resized(old(slots), |args|)[i], args[i])) ==>
        slots[i] == Resized(old(slots), |args|)[i]
      ensures ok ==> |bound| == |args| && forall i :: 0 <= i < |args| ==>
              Serves(slots[i], args[i], live, made) && bound[i] == slots[i].handle.value
      ensures ok ==> forall i :: 0 <= i < |args| ==>
              bound[i] in live && bound[i] in made && made[bound[i]] == args[i].info
      ensures forall h :: h in old(made) ==> h in made && made[h] == old(made)[h]
    {
      hide Distinct, Handles, Labelled;
      FreshSlots(|args|, made);
      if |slots| < |args| {
        lost := lost + Handles(slots);
        slots := seq(|args|, _ => EMPTY);
      }
      used := |args|;
      ghost var o := slots;
      bound := [];
      var i := 0;
      while i < |args|
        invariant i <= |args| == used && Valid() && |slots| == |o|
                  && lost == old(lost) + if |old(slots)| < |args| then Handles(old(slots)) else {}
        invariant forall h :: h in old(made) ==> h in made && made[h] == old(made)[h]
        invariant forall k :: i <= k < |slots| ==> slots[k] == o[k]
        invariant forall k :: 0 <= k < i && Suits(o[k], args[k]) ==> slots[k] == o[k]
        invariant forall k :: 0 <= k < i ==>
                  Works(o[k], args[k]) && slots[k].handle.Some? && slots[k].info == args[k].info
      {
        if args[i].refused {
          return false, [];
        }
        ok := Prepare(i, args[i]);
        if !ok || args[i].notSet {
          return false, [];
        }
        i := i + 1;
      }
      ok := true;
      forall k | 0 <= k < |args| ensures Serves(slots[k], args[k], live, made) {
        InSlot(slots, k, made);
      }
      i := 0;
      while i < used
        invariant i <= used == |args| && |bound| == i
        invariant forall k :: 0 <= k < i ==> slots[k].handle == Some(bound[k]) && Serves(slots[k], args[k], live, made)
      {
        bound := bound + [slots[i].handle.value];
        i := i + 1;
      }
    }

    /** closeNotLocking: whatever the slots hold is released, up to the capacity. */
    method Close()
      requires Valid()
      modifies this
      ensures Valid() && !open && live == lost == old(lost)
    {
      if !open {
        return;
      }
      var vars := slots;
      slots, used, open := [], 0, false;
      var i := 0;
      while i < |vars|
        invariant i <= |vars| && live == Handles(vars[i..]) + lost && lost == old(lost)
        invariant unchanged(this`next) && unchanged(this`made) && slots == [] && used == 0 && !open
      {
        NextHandle(vars, i);
        if vars[i].handle.Some? {
          Release(vars[i].handle.value);
        }
        i := i + 1;
      }
    }
  }

  /** The length of the first argument list that is not empty. */
  function First(runs: seq<seq<Arg>>): nat {
    if runs == [] then 0 else if runs[0] != [] then |runs[0]| else First(runs[1..])
  }

  ghost predicate NeverLonger(runs: seq<seq<Arg>>, i: nat)
    requires i <= |runs|
  {
    forall k :: 0 <= k < i ==> |runs[k]| <= First(runs)
  }

  /** No argument ever fails. */
  ghost predicate AllWork(runs: seq<seq<Arg>>) {
    forall k, j :: 0 <= k < |runs| && 0 <= j < |runs[k]| ==> Works(EMPTY, runs[k][j])
  }

  lemma {:induction false} FirstIs(runs: seq<seq<Arg>>, i: nat)
    requires i < |runs| && runs[i] != [] && forall k :: 0 <= k < i ==> runs[k] == []
    ensures First(runs) == |runs[i]|
  {
    if i > 0 {
      FirstIs(runs[1..], i - 1);
    }
  }

  /** One execution: handles are forgotten exactly if the array grows. */
  method RunOnce(st: Binds, args: seq<Arg>)
    requires st.Valid() && st.open
    modifies st
    ensures st.Valid() && st.open && |st.slots| == if |old(st.slots)| < |args| then |args| else |old(st.slots)|
    ensures old(st.lost) <= st.lost && (|args| <= |old(st.slots)| || old(st.slots) == [] ==> st.lost == old(st.lost))
    ensures old(st.slots) != [] && old(st.slots)[0].handle.Some? && |args| > |old(st.slots)| ==> st.lost != {}
    ensures (forall j :: 0 <= j < |args| ==> Works(EMPTY, args[j])) && st.slots != []
            && (old(st.slots) != [] ==> old(st.slots)[0].handle.Some?) ==>
      st.slots[0].handle.Some?
  {
    ghost var before := st.slots;
    assert before == [] ==> Handles(before) == {};
    assert before != [] && before[0].handle.Some? ==> before[0].handle.value in Handles(before);
    var ok, bound := st.BindVars(args);
    assert ok && args != [] ==> Serves(st.slots[0], args[0], st.live, st.made);
  }

  /** Any number of executions and then Close: as long as no argument list is
      longer than the first one, nothing is left unreleased; and if no argument
      fails, only then. */
  method UseAndClose(runs: seq<seq<Arg>>) returns (st: Binds)
    ensures fresh(st) && st.Valid() && !st.open && st.live == st.lost
    ensures NeverLonger(runs, |runs|) ==> st.live == {}
    ensures AllWork(runs) ==> (st.live == {} <==> NeverLonger(runs, |runs|))
  {
    st := new Binds();
    var i := 0;
    while i < |runs|
      invariant i <= |runs| && st.Valid() && st.open && fresh(st)
      invariant (forall k :: 0 <= k < i ==> runs[k] == []) <==> st.slots == []
      invariant st.slots != [] ==>
                |st.slots| >= First(runs) > 0 && (st.lost == {} && AllWork(runs) ==> |st.slots| == First(runs))
      invariant st.slots == [] ==> st.lost == {}
      invariant NeverLonger(runs, i) ==> st.lost == {}
      invariant AllWork(runs) && st.slots != [] ==> st.slots[0].handle.Some?
      invariant AllWork(runs) && !NeverLonger(runs, i) ==> st.lost != {}
    {
      if st.slots == [] && runs[i] != [] {
        FirstIs(runs, i);
      }
      assert AllWork(runs) ==> forall j :: 0 <= j < |runs[i]| ==> Works(EMPTY, runs[i][j]);
      assert NeverLonger(runs, i + 1) <==> NeverLonger(runs, i) && |runs[i]| <= First(runs);
      hide AllWork, NeverLonger, First;
      RunOnce(st, runs[i]);
      i := i + 1;
    }
    st.Close();
  }

  /** One argument, then two: the first handle is never released. */
  method LeakExample() returns (st: Binds)
    ensures st.Valid() && !st.open && st.live != {}
  {
    var a := Arg(1, false, false, false);
    st := new Binds();
    var ok, bound := st.BindVars([a]);
    assert Works(EMPTY, a);
    assert ok;
    assert Serves(st.slots[0], [a][0], st.live, st.made);
    assert st.slots[0].handle.value in Handles(st.slots);
    ok, bound := st.BindVars([a, a]);
    st.Close();
  }
}

