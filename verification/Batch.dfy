/** Collecting rows into columns and executing them in batches (batch.go). */
module Batch {
  import Decimals

  const DEFAULT_LIMIT := 1024

  /** A Go type: its underlying type, and its name unless it is a type literal.
      Every type of kind string has a name. */
  datatype RawType = Type(underlying: nat, name: nat) {
    predicate Literal() { name == 0 }

    predicate IsString() { underlying == 0 }
  }
  type Type = t: RawType | t.IsString() ==> !t.Literal() witness STRING

  /** The type string itself. */
  const STRING := RawType.Type(0, 1)

  /** What may be appended to a slice of another type: the underlying types
      agree, and one of the two is a literal. */
  predicate Assignable(from: Type, to: Type) {
    from == to || (from.underlying == to.underlying && (from.Literal() || to.Literal()))
  }

  /** A value of some type, zero data being the type's zero value (the empty string), or nil. */
  datatype Val = Nil | Val(ty: Type, data: int)

  /** A slice of values, not there yet as long as only nils were added. */
  datatype Column = Untyped | Typed(ty: Type, items: seq<int>)

  type Row = seq<Val>

  /** How an execution ends: with a count, without one, or not at all. */
  datatype Outcome = Executed(affected: int) | NoCount | Refused

  datatype Status = Good | ExecFailed | CountFailed | Panicked

  function StatusOf(outcome: Outcome): (status: Status) {
    match outcome
    case Executed(_) => Good
    case NoCount => CountFailed
    case Refused => ExecFailed
  }

  function Data(v: Val): int { if v.Nil? then 0 else v.data }

  /** A value is in a column of a type it is assignable to, or is nil, or an
      empty string that has changed type. */
  predicate FitsType(v: Val, ty: Type) { v.Nil? || Assignable(v.ty, ty) || (v.ty.IsString() && v.data == 0) }

  /** The column holds these values. */
  ghost predicate Holds(c: Column, vals: seq<Val>) {
    match c
    case Untyped => forall r :: 0 <= r < |vals| ==> vals[r].Nil?
    case Typed(ty, items) =>
      |items| == |vals| && forall r :: 0 <= r < |vals| ==> items[r] == Data(vals[r]) && FitsType(vals[r], ty)
  }

  predicate AllZero(items: seq<int>) { forall j :: 0 <= j < |items| ==> items[j] == 0 }

  /** Appending a value panics. */
  predicate Clash(c: Column, v: Val, size: nat, limit: int) {
    match c
    case Untyped => v.Val? && size > limit
    case Typed(ty, items) =>
      v.Val? && !Assignable(v.ty, ty) && !(ty.IsString() && !v.ty.IsString() && AllZero(items))
  }

  /** The type of a column after a value was appended. */
  predicate Grown(c: Column, v: Val, d: Column) {
    && (d.Untyped? <==> c.Untyped? && v.Nil?)
    && (d.Typed? && v.Val? ==> d.ty == if c.Typed? && Assignable(v.ty, c.ty) then c.ty else v.ty)
    && (d.Typed? && v.Nil? ==> c.Typed? && d.ty == c.ty)
  }

  /** One column of Add's loop. */
  method Append(c: Column, v: Val, limit: int, ghost vals: seq<Val>, size: nat) returns (ok: bool, d: Column)
    requires Holds(c, vals) && size == |vals|
    ensures ok <==> !Clash(c, v, size, limit)
    ensures ok ==> Holds(d, vals + [v]) && Grown(c, v, d)
  {
    ok, d := true, c;
    if d.Untyped? {
      if v.Nil? {
        return;
      }
      if size > limit {
        return false, d;
      }
      d := Typed(v.ty, Decimals.Zeros(size));
    }
    if v.Nil? {
      d := Typed(d.ty, d.items + [0]);
      return;
    }
    if !v.ty.IsString() && d.ty.IsString() {
      var allZero, j := true, 0;
      while j < |d.items|
        invariant j <= |d.items| && allZero == AllZero(d.items[..j])
      {
        allZero := d.items[j] == 0;
        if !allZero {
          assert !AllZero(d.items[..j + 1]) by {
            assert d.items[..j + 1][j] != 0;
          }
          break;
        }
        j := j + 1;
      }
      if allZero {
        assert d.items[..j] == d.items;
        d := Typed(v.ty, Decimals.Zeros(|d.items|));
      }
    }
    if !Assignable(v.ty, d.ty) {
      return false, d;
    }
    d := Typed(d.ty, d.items + [v.data]);
  }

  /** Column i of the rows. */
  ghost function Cut(rows: seq<Row>, i: nat): seq<Val>
    requires forall r :: 0 <= r < |rows| ==> i < |rows[r]|
  {
    seq(|rows|, r requires 0 <= r < |rows| => rows[r][i])
  }

  ghost predicate Width(rows: seq<Row>, n: nat) { forall r :: 0 <= r < |rows| ==> |rows[r]| == n }

  /** The columns are the transpose of the rows. */
  ghost predicate Transposed(columns: seq<Column>, rows: seq<Row>) {
    Width(rows, |columns|) && forall i :: 0 <= i < |columns| ==> Holds(columns[i], Cut(rows, i))
  }

  /** What goes to the database: every column typed. */
  function Arguments(columns: seq<Column>, size: nat): (args: seq<Column>) {
    seq(|columns|, i requires 0 <= i < |columns| =>
          if columns[i].Untyped? then Typed(STRING, Decimals.Zeros(size)) else columns[i])
  }

  lemma {:induction false} ArgumentsHold(columns: seq<Column>, rows: seq<Row>)
    requires Transposed(columns, rows)
    ensures var args := Arguments(columns, |rows|);
            && Transposed(args, rows) && |args| == |columns|
            && (forall i :: 0 <= i < |args| ==> args[i].Typed? && |args[i].items| == |rows|)
            && (forall i :: 0 <= i < |args| && columns[i].Typed? ==> args[i] == columns[i])
            && (forall i :: 0 <= i < |args| && columns[i].Untyped? ==> args[i].ty.IsString() && AllZero(args[i].items))
  {
  }

  predicate SameType(c: Column, d: Column) { c.Typed? == d.Typed? && (c.Typed? ==> c.ty == d.ty) }

  function Emptied(columns: seq<Column>): seq<Column> {
    seq(|columns|, i requires 0 <= i < |columns| => if columns[i].Typed? then Typed(columns[i].ty, []) else Untyped)
  }

  lemma {:induction false} NoRows(columns: seq<Column>)
    requires forall i :: 0 <= i < |columns| ==> columns[i].Untyped?
    ensures Transposed(columns, [])
  {
  }

  /** Appending a row to every column is transposing the longer rows. */
  lemma {:induction false} OneMoreRow(columns: seq<Column>, rows: seq<Row>, values: Row)
    requires Width(rows, |columns|) && |values| == |columns|
    requires forall i :: 0 <= i < |columns| ==> Holds(columns[i], Cut(rows, i) + [values[i]])
    ensures Transposed(columns, rows + [values])
  {
    forall i | 0 <= i < |columns| ensures Holds(columns[i], Cut(rows + [values], i)) {
      assert Cut(rows + [values], i) == Cut(rows, i) + [values[i]];
    }
  }

  class Batch {
    var limit: int
    var started: bool
    var columns: seq<Column>
    var size: nat
    var rowsAffected: int

    /** The rows that were added, those in flushes that returned nil, those in
        the buffer, and all that the database has executed. */
    ghost var added: seq<Row>
    ghost var flushed: seq<Row>
    ghost var rows: seq<Row>
    ghost var executed: seq<Row>

    ghost predicate Valid()
      reads this
    {
      && added == flushed + rows && size == |rows| && Transposed(columns, rows)
      && (started ==> limit > 0) && (!started ==> columns == [] && rows == [])
    }

    constructor (limit: int)
      ensures Valid() && this.limit == limit && !started && added == [] && executed == [] && rowsAffected == 0
    {
      this.limit := limit;
      started, columns, size, rowsAffected := false, [], 0, 0;
      added, flushed, rows, executed := [], [], [], [];
    }

    /** Flush.  `outcome` is what the database does if it is asked. */
    method Flush(outcome: Outcome) returns (status: Status, args: seq<Column>)
      requires Valid()
      modifies this`columns, this`size, this`rowsAffected, this`flushed, this`rows, this`executed
      ensures Valid()
      ensures status == if old(columns) == [] then Good
                        else if old(columns)[0].Untyped? then Panicked
                        else if old(rows) == [] then Good
                        else StatusOf(outcome)
      ensures status == ExecFailed || status == Panicked || old(columns) == [] || old(rows) == [] ==> unchanged(this)
      ensures status == CountFailed ==>
        && executed == old(executed) + rows && rows == old(rows) && flushed == old(flushed)
        && columns == old(columns) && rowsAffected == old(rowsAffected)
      ensures status == Good && old(columns) != [] ==> rows == [] && flushed == old(flushed) + old(rows)
      ensures |columns| == |old(columns)| && forall i :: 0 <= i < |columns| ==> SameType(columns[i], old(columns)[i])
      ensures status == Good && old(columns) != [] && old(rows) != [] ==>
        executed == old(executed) + old(rows) && rowsAffected == old(rowsAffected) + outcome.affected
      ensures executed != old(executed) ==> Transposed(args, old(rows)) && forall i :: 0 <= i < |args| ==>
              args[i].Typed?
      ensures old(columns) != [] && old(columns)[0].Typed? && old(rows) != [] ==>
              && Transposed(args, old(rows)) && |args| == |old(columns)|
              && (forall i :: 0 <= i < |args| && old(columns)[i].Typed? ==> args[i] == old(columns)[i])
              && (forall i :: 0 <= i < |args| && old(columns)[i].Untyped? ==>
                    args[i].Typed? && args[i].ty.IsString() && |args[i].items| == |old(rows)| && AllZero(args[i].items))
      ensures !(old(columns) != [] && old(columns)[0].Typed? && old(rows) != []) ==> args == []
    {
      args := [];
      if |columns| == 0 {
        return Good, args;
      }
      if columns[0].Untyped? {
        return Panicked, args;
      }
      if |columns[0].items| == 0 {
        return Good, args;
      }
      args := Arguments(columns, size);
      ArgumentsHold(columns, rows);
      match outcome
      case Refused =>
        status := ExecFailed;
      case NoCount =>
        executed := executed + rows;
        status := CountFailed;
      case Executed(affected) =>
        rowsAffected := rowsAffected + affected;
        columns := Emptied(columns);
        size := 0;
        executed, flushed, rows := executed + rows, flushed + rows, [];
        status := Good;
    }

    /** The limit and the columns as the first Add finds them. */
    function Limit(): int
      reads this
    {
      if !started && limit <= 0 then DEFAULT_LIMIT else limit
    }

    function Columns(n: nat): seq<Column>
      reads this
    {
      if started then columns else seq(n, _ => Untyped)
    }

    /** The row is too long, or one of its values does not go with its column. */
    ghost predicate Clashes(values: Row)
      reads this
    {
      |values| > |Columns(|values|)| ||
      exists i :: 0 <= i < |values| && i < |Columns(|values|)| && Clash(Columns(|values|)[i], values[i], size, Limit())
    }

    /** The loop over the values; there is no column for more than the first row had. */
    method AppendAll(values: Row) returns (ok: bool)
      requires |values| >= |columns| && size == |rows| && Transposed(columns, rows)
      modifies this`columns
      ensures ok <==>
              && |values| == |old(columns)|
              && forall i :: 0 <= i < |values| ==> !Clash(old(columns)[i], values[i], size, limit)
      ensures ok ==> |columns| == |values| && Transposed(columns, rows + [values])
      ensures ok ==> forall i :: 0 <= i < |values| ==> Grown(old(columns)[i], values[i], columns[i])
    {
      ghost var before := columns;
      var i := 0;
      while i < |values|
        invariant i <= |columns| == |before| <= |values|
        invariant forall k :: 0 <= k < i ==> Holds(columns[k], Cut(rows, k) + [values[k]])
        invariant forall k :: 0 <= k < i ==> !Clash(before[k], values[k], size, limit)
        invariant forall k :: i <= k < |columns| ==> columns[k] == before[k] && Holds(columns[k], Cut(rows, k))
        invariant forall k :: 0 <= k < i ==> Grown(before[k], values[k], columns[k])
      {
        if i == |columns| {
          return false;
        }
        var d;
        ok, d := Append(columns[i], values[i], limit, Cut(rows, i), size);
        if !ok {
          return;
        }
        columns := columns[i := d];
        i := i + 1;
      }
      OneMoreRow(columns, rows, values);
      ok := true;
    }

    /** Add.  No call has fewer values than the first one.  A clash of types and
        a value too many are a panic, and leave the batch unusable; else the row
        is kept. */
    method Add(values: Row, outcome: Outcome) returns (status: Status)
      requires Valid() && (started ==> |values| >= |columns|)
      modifies this
      ensures old(Clashes(values)) ==> status == Panicked
      ensures !old(Clashes(values)) ==>
        Valid() && started && |columns| == |values| && limit == old(Limit()) && added == old(added) + [values]
      ensures !old(Clashes(values)) ==>
        forall i :: 0 <= i < |values| ==> Grown(old(Columns(|values|))[i], values[i], columns[i])
      ensures !old(Clashes(values)) && (values == [] || old(size) + 1 < limit) ==>
        status == Good && rows == old(rows) + [values] && executed == old(executed)
      ensures !old(Clashes(values)) && values != [] && old(size) + 1 >= limit ==>
        && (status == Panicked <==> values[0].Nil? && old(Columns(|values|))[0].Untyped?)
        && (status != Panicked ==> status == StatusOf(outcome))
        && rows == (if status == Good then [] else old(rows) + [values])
        && executed == old(executed) + (if status == Good || status == CountFailed then old(rows) + [values] else [])
        && rowsAffected == old(rowsAffected) + (if status == Good then outcome.affected else 0)
    {
      hide Holds, Transposed, Clash, Assignable;
      if !started {
        if limit <= 0 {
          limit := DEFAULT_LIMIT;
        }
        columns := seq(|values|, _ => Untyped);
        started := true;
        NoRows(columns);
      }
      assert columns == old(Columns(|values|));
      var ok := AppendAll(values);
      if !ok {
        return Panicked;
      }
      size := size + 1;
      added, rows := added + [values], rows + [values];
      if size < limit {
        return Good;
      }
      var args;
      status, args := Flush(outcome);
    }
  }

  /** A first row of one nil, at a limit of one. */
  method NilExample() returns (status: Status)
    ensures status == Panicked
  {
    var b := new Batch(1);
    status := b.Add([Nil], Executed(1));
  }

  /** One refused execution at a limit of one leaves one row waiting, and room
      for one more. */
  method RoomExample(v: Val) returns (status: Status)
    requires v.Val?
    ensures status == Good
  {
    var b := new Batch(1);
    status := b.Add([v, Nil], Refused);
    assert b.columns[0].Typed? && b.columns[0].ty == v.ty && b.columns[1].Untyped? && b.size == 1;
    status := b.Add([v, v], Executed(2));
  }

  /** Two refused executions at a limit of one leave two rows waiting: the first
      value of a column that held only nils then finds no room. */
  method LimitExample(v: Val) returns (status: Status)
    requires v.Val?
    ensures status == Panicked
  {
    var b := new Batch(1);
    status := b.Add([v, Nil], Refused);
    assert b.columns[0].Typed? && b.columns[0].ty == v.ty && b.columns[1].Untyped? && b.size == 1;
    status := b.Add([v, Nil], Refused);
    assert b.columns[1].Untyped? && b.size == 2;
    assert Clash(b.columns[1], [v, v][1], b.size, b.Limit());
    status := b.Add([v, v], Executed(3));
  }
}
