/**
 * The relational layer the ORM talks to, as an in-memory store: every table is
 * the sequence of its rows in stored order, and every query is a function of
 * that sequence. Table models (column definitions) come from a fixed schema.
 * Transactions are a snapshot of all tables taken by the outermost begin.
 */
module Database {
  import opened Values

  /** How a column's SQL type name is grouped by `Element::load` (Element.php:383-395). */
  datatype ColumnKind = NumericKind | DateKind | DateTimeKind | TextKind

  function KindOf(typeName: string): ColumnKind
  {
    if typeName in ["int", "tinyint", "smallint", "mediumint", "bigint", "float", "decimal", "double", "year"]
    then NumericKind
    else if typeName == "date" then DateKind
    else if typeName == "datetime" then DateTimeKind
    else TextKind
  }

  /** A column definition; `default == VNull` stands for "no default". */
  datatype Column = Column(typeName: string, nullable: bool, default: Value)

  /** The cached table model `getTable` returns: the columns by name. */
  type TableModel = map<string, Column>

  /** A where-array: column => required value, all of them at once. */
  type Where = map<string, Value>

  /** The value results are keyed by in the ORM (`$r['id']`). */
  function RowId(r: Row): Value
  {
    Get(r, "id")
  }

  predicate Matches(r: Row, where: Where)
  {
    forall k :: k in where ==> Get(r, k) == where[k]
  }

  /** `select_all(table, where)`: the matching rows, in stored order. */
  function FilterWhere(rows: seq<Row>, where: Where): (out: seq<Row>)
    ensures |out| <= |rows|
  {
    if rows == [] then []
    else (if Matches(rows[0], where) then [rows[0]] else []) + FilterWhere(rows[1..], where)
  }

  /** `select_all(table, [field => v])`. */
  function FilterEq(rows: seq<Row>, f: string, v: Value): (out: seq<Row>)
    ensures |out| <= |rows|
  {
    if rows == [] then []
    else (if Get(rows[0], f) == v then [rows[0]] else []) + FilterEq(rows[1..], f, v)
  }

  /** `select_all(table, [field => ['in', vs]])`. */
  function FilterIn(rows: seq<Row>, f: string, vs: seq<Value>): (out: seq<Row>)
    ensures |out| <= |rows|
  {
    if rows == [] then []
    else (if Get(rows[0], f) in vs then [rows[0]] else []) + FilterIn(rows[1..], f, vs)
  }

  /** The filters keep exactly the rows that satisfy their condition. */
  lemma {:induction false} FilterMember(rows: seq<Row>, where: Where, f: string, v: Value, vs: seq<Value>)
    ensures forall r :: r in FilterWhere(rows, where) <==> r in rows && Matches(r, where)
    ensures forall r :: r in FilterEq(rows, f, v) <==> r in rows && Get(r, f) == v
    ensures forall r :: r in FilterIn(rows, f, vs) <==> r in rows && Get(r, f) in vs
    ensures forall r :: r in DeleteWhere(rows, where) <==> r in rows && !Matches(r, where)
  {
    if rows != [] {
      FilterMember(rows[1..], where, f, v, vs);
      assert rows == [rows[0]] + rows[1..];
    }
  }

  /** A where-array with a single column is the equality filter on that column. */
  lemma {:induction false} FilterWhereSingle(rows: seq<Row>, f: string, v: Value)
    ensures FilterWhere(rows, map[f := v]) == FilterEq(rows, f, v)
  {
    if rows != [] {
      FilterWhereSingle(rows[1..], f, v);
      assert Matches(rows[0], map[f := v]) <==> Get(rows[0], f) == v;
    }
  }

  /** An `IN` filter over one value selects the same rows as the equality filter. */
  lemma {:induction false} FilterInSingle(rows: seq<Row>, f: string, v: Value)
    ensures FilterIn(rows, f, [v]) == FilterEq(rows, f, v)
  {
    if rows != [] {
      FilterInSingle(rows[1..], f, v);
    }
  }

  lemma {:induction false} FilterEqConcat(a: seq<Row>, b: seq<Row>, f: string, v: Value)
    ensures FilterEq(a + b, f, v) == FilterEq(a, f, v) + FilterEq(b, f, v)
  {
    if a == [] {
      assert a + b == b;
    } else {
      var ab := a + b;
      assert ab[0] == a[0];
      assert ab[1..] == a[1..] + b;
      FilterEqConcat(a[1..], b, f, v);
      var head := if Get(a[0], f) == v then [a[0]] else [];
      calc {
        FilterEq(ab, f, v);
        head + FilterEq(a[1..] + b, f, v);
        head + (FilterEq(a[1..], f, v) + FilterEq(b, f, v));
        (head + FilterEq(a[1..], f, v)) + FilterEq(b, f, v);
      }
    }
  }

  /** Filtering an `IN` result on one of its values is the direct equality filter. */
  lemma {:induction false} FilterEqOfIn(rows: seq<Row>, f: string, vs: seq<Value>, p: Value)
    ensures p in vs ==> FilterEq(FilterIn(rows, f, vs), f, p) == FilterEq(rows, f, p)
    ensures p !in vs ==> FilterEq(FilterIn(rows, f, vs), f, p) == []
  {
    if rows != [] {
      FilterEqOfIn(rows[1..], f, vs, p);
      var head := if Get(rows[0], f) in vs then [rows[0]] else [];
      FilterEqConcat(head, FilterIn(rows[1..], f, vs), f, p);
    }
  }

  /** `select(table, where)`: the first matching row, or false. */
  function First(rows: seq<Row>, where: Where): (r: Option<Row>)
    ensures r.Some? <==> FilterWhere(rows, where) != []
    ensures r.Some? ==> r.value == FilterWhere(rows, where)[0]
  {
    if rows == [] then None
    else if Matches(rows[0], where) then Some(rows[0])
    else First(rows[1..], where)
  }

  /** `select(table, where, ['max' => f])`: SQL MAX over the numeric values of `f`. */
  function MaxOf(rows: seq<Row>, where: Where, f: string): Option<int>
  {
    if rows == [] then None
    else
      var rest := MaxOf(rows[1..], where, f);
      var here := if Matches(rows[0], where) then Numeric(Get(rows[0], f)) else None;
      if here.None? then rest
      else if rest.None? || rest.value < here.value then here
      else rest
  }

  /** MAX is an upper bound of the numeric values selected, and one of them. */
  lemma {:induction false} MaxOfIsMax(rows: seq<Row>, where: Where, f: string)
    ensures forall r :: r in rows && Matches(r, where) && Numeric(Get(r, f)).Some? ==>
              MaxOf(rows, where, f).Some? && Numeric(Get(r, f)).value <= MaxOf(rows, where, f).value
    ensures MaxOf(rows, where, f).Some? ==>
              exists r :: r in rows && Matches(r, where) && Numeric(Get(r, f)) == MaxOf(rows, where, f)
  {
    if rows != [] {
      MaxOfIsMax(rows[1..], where, f);
      assert rows == [rows[0]] + rows[1..];
    }
  }

  /** `((int) MAX(f)) + 1`: one past the largest value, 1 when there is none. */
  function NextValue(rows: seq<Row>, where: Where, f: string): int
  {
    (match MaxOf(rows, where, f) case None => 0 case Some(m) => m) + 1
  }

  /** The next value is above every value already selected, and at least 1 when they are all positive. */
  lemma NextValueAbove(rows: seq<Row>, where: Where, f: string)
    ensures forall r :: r in rows && Matches(r, where) && Numeric(Get(r, f)).Some? ==>
              Numeric(Get(r, f)).value < NextValue(rows, where, f)
    ensures (forall r :: r in rows && Matches(r, where) && Numeric(Get(r, f)).Some? ==> Numeric(Get(r, f)).value >= 0) ==>
              NextValue(rows, where, f) >= 1
  {
    MaxOfIsMax(rows, where, f);
  }

  /** The rows the partition condition of the ordering query selects. */
  predicate InPartition(r: Row, dep: Option<string>, parent: Value)
  {
    dep.None? || Get(r, dep.value) == parent
  }

  /** SQL `f > old`: false when either side is NULL or not a number. */
  predicate Above(r: Row, f: string, oldOrder: Value)
  {
    Numeric(Get(r, f)).Some? && Numeric(oldOrder).Some? && Numeric(Get(r, f)).value > Numeric(oldOrder).value
  }

  function ShiftRow(r: Row, f: string, dep: Option<string>, parent: Value, oldOrder: Value): Row
  {
    if InPartition(r, dep, parent) && Above(r, f, oldOrder)
    then r[f := VInt(Numeric(Get(r, f)).value - 1)]
    else r
  }

  /**
   * The effect of `UPDATE t SET f = f - 1 WHERE <dep> IS NULL / = parent AND f > old`
   * (no partition condition when `dep` is None).
   */
  function ShiftDown(rows: seq<Row>, f: string, dep: Option<string>, parent: Value, oldOrder: Value): (out: seq<Row>)
    ensures |out| == |rows|
    ensures forall i :: 0 <= i < |rows| ==> out[i] == ShiftRow(rows[i], f, dep, parent, oldOrder)
  {
    if rows == [] then [] else [ShiftRow(rows[0], f, dep, parent, oldOrder)] + ShiftDown(rows[1..], f, dep, parent, oldOrder)
  }

  /** One row after `update(table, where, changes)`. */
  function UpdateRow(r: Row, where: Where, changes: Row): Row
  {
    if Matches(r, where) then r + changes else r
  }

  /** `update(table, where, changes)`. */
  function UpdateWhere(rows: seq<Row>, where: Where, changes: Row): (out: seq<Row>)
    ensures |out| == |rows|
    ensures forall i :: 0 <= i < |rows| ==> out[i] == UpdateRow(rows[i], where, changes)
  {
    if rows == [] then []
    else [UpdateRow(rows[0], where, changes)] + UpdateWhere(rows[1..], where, changes)
  }

  /** `delete(table, where)`: the rows that do not match, in stored order. */
  function DeleteWhere(rows: seq<Row>, where: Where): (out: seq<Row>)
    ensures |out| <= |rows|
  {
    if rows == [] then []
    else (if Matches(rows[0], where) then [] else [rows[0]]) + DeleteWhere(rows[1..], where)
  }

  /** The in-memory database connection. */
  class Db {
    var tables: map<string, seq<Row>>
    const schema: map<string, TableModel>
    var snapshot: map<string, seq<Row>>
    var depth: nat

    /** The set of tables is fixed: writes and rollbacks replace the rows of a table, never the tables. */
    ghost predicate Valid()
      reads this
    {
      schema.Keys <= tables.Keys && snapshot.Keys == tables.Keys
    }

    constructor (schema: map<string, TableModel>, tables: map<string, seq<Row>>)
      requires schema.Keys <= tables.Keys
      ensures Valid()
      ensures this.schema == schema && this.tables == tables && depth == 0
    {
      this.schema := schema;
      this.tables := tables;
      this.snapshot := tables;
      this.depth := 0;
    }

    function Rows(t: string): seq<Row>
      reads this
    {
      if t in tables then tables[t] else []
    }

    /** `getTable(table)`: the table model, or false for an unknown or missing table. */
    function GetTable(t: Option<string>): (tm: Option<TableModel>)
      ensures tm.Some? <==> t.Some? && t.value in schema
    {
      if t.Some? && t.value in schema then Some(schema[t.value]) else None
    }

    method Select(t: string, where: Where) returns (r: Option<Row>)
      ensures r == First(Rows(t), where)
    {
      r := First(Rows(t), where);
    }

    method SelectAll(t: string, where: Where) returns (rows: seq<Row>)
      ensures rows == FilterWhere(Rows(t), where)
    {
      rows := FilterWhere(Rows(t), where);
    }

    /** `((int) select(t, where, ['max' => f])) + 1`. */
    method NextOf(t: string, where: Where, f: string) returns (n: int)
      ensures n == NextValue(Rows(t), where, f)
    {
      n := NextValue(Rows(t), where, f);
    }

    /** `insert(t, row)`: the new row gets the next primary key, which is returned. */
    method Insert(t: string, pk: string, row: Row) returns (id: Value)
      requires Valid() && t in tables
      modifies this
      ensures Valid() && depth == old(depth) && snapshot == old(snapshot)
      ensures id == VInt(NextValue(old(Rows(t)), map[], pk))
      ensures tables == old(tables)[t := old(Rows(t)) + [row[pk := id]]]
    {
      id := VInt(NextValue(Rows(t), map[], pk));
      tables := tables[t := Rows(t) + [row[pk := id]]];
    }

    method Update(t: string, where: Where, changes: Row)
      requires Valid() && t in tables
      modifies this
      ensures Valid() && depth == old(depth) && snapshot == old(snapshot)
      ensures tables == old(tables)[t := UpdateWhere(old(Rows(t)), where, changes)]
    {
      tables := tables[t := UpdateWhere(Rows(t), where, changes)];
    }

    method Delete(t: string, where: Where)
      requires Valid() && t in tables
      modifies this
      ensures Valid() && depth == old(depth) && snapshot == old(snapshot)
      ensures tables == old(tables)[t := DeleteWhere(old(Rows(t)), where)]
    {
      tables := tables[t := DeleteWhere(Rows(t), where)];
    }

    /** The `UPDATE ... SET f = f - 1` query `shiftOrder` issues. */
    method ShiftOrder(t: string, f: string, dep: Option<string>, parent: Value, oldOrder: Value)
      requires Valid() && t in tables
      modifies this
      ensures Valid() && depth == old(depth) && snapshot == old(snapshot)
      ensures tables == old(tables)[t := ShiftDown(old(Rows(t)), f, dep, parent, oldOrder)]
    {
      tables := tables[t := ShiftDown(Rows(t), f, dep, parent, oldOrder)];
    }

    /** Only the outermost `beginTransaction` takes the snapshot a rollback returns to. */
    method BeginTransaction()
      requires Valid()
      modifies this
      ensures Valid()
      ensures tables == old(tables) && depth == old(depth) + 1
      ensures snapshot == if old(depth) == 0 then old(tables) else old(snapshot)
    {
      if depth == 0 {
        snapshot := tables;
      }
      depth := depth + 1;
    }

    method Commit()
      requires Valid()
      modifies this
      ensures Valid()
      ensures tables == old(tables) && snapshot == old(snapshot)
      ensures depth == if old(depth) > 0 then old(depth) - 1 else 0
    {
      if depth > 0 {
        depth := depth - 1;
      }
    }

    /** Restores the tables as they were when the outermost transaction began. */
    method RollBack()
      requires Valid()
      modifies this
      ensures Valid()
      ensures tables == (if old(depth) > 0 then old(snapshot) else old(tables))
      ensures snapshot == old(snapshot) && depth == 0
    {
      if depth > 0 {
        tables := snapshot;
      }
      depth := 0;
    }
  }
}
