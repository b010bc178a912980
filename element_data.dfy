/**
 * The array transformations an element performs on its data: which keys
 * `update` stages and how it coerces them, the defaults `load` fills in, the
 * diff `save` writes, the order and auto-increment values `save` assigns, the
 * post keys of child forms and the data a duplicate starts from.
 */
module ElementData {
  import opened Values
  import opened Database
  import opened Ordering

  // ---------------------------------------------------------------------------
  // Keys and staging

  /** `getDataKeys()`: the table's columns except the primary key, or false without a table model. */
  function DataKeys(tm: Option<TableModel>, primary: string): (keys: Option<set<string>>)
    ensures keys.Some? <==> tm.Some?
    ensures keys.Some? ==> primary !in keys.value && keys.value <= tm.value.Keys
    ensures keys.Some? ==> forall c :: c in tm.value && c != primary ==> c in keys.value
  {
    match tm
    case None => None
    case Some(m) => Some(m.Keys - {primary})
  }

  /** `getData()`: the data without the primary key. */
  function WithoutPrimary(data: Row, primary: string): (d: Row)
    ensures primary !in d
    ensures forall k :: k in data && k != primary ==> k in d && d[k] == data[k]
    ensures d.Keys <= data.Keys
  {
    data - {primary}
  }

  /** The coercion `update` applies: an empty string on a nullable column becomes null. */
  function Coerce(c: Column, v: Value): (r: Value)
    ensures r == VNull || r == v
    ensures c.nullable && v == VStr("") ==> r == VNull
  {
    if c.nullable && v == VStr("") then VNull else v
  }

  /** The `saving` array `update(data)` returns and writes into the element's data. */
  function Staged(tm: TableModel, keys: set<string>, data: Row): (saving: Row)
    requires keys <= tm.Keys
  {
    map k | k in data.Keys * keys :: Coerce(tm[k], data[k])
  }

  /**
   * `update` stages exactly the given keys that are data keys, each one
   * coerced, so never the primary key and never a column the table lacks.
   */
  lemma StagedKeys(tm: TableModel, primary: string, data: Row)
    ensures var keys := DataKeys(Some(tm), primary).value;
            var saving := Staged(tm, keys, data);
            primary !in saving && saving.Keys <= tm.Keys && saving.Keys <= data.Keys &&
            (forall k :: k in data && k in tm && k != primary ==> k in saving) &&
            (forall k :: k in saving ==> saving[k] == data[k] || (saving[k] == VNull && data[k] == VStr("") && tm[k].nullable))
  {
  }

  /** Staging what was staged changes nothing: the coercion is idempotent. */
  lemma StagedIdempotent(tm: TableModel, keys: set<string>, data: Row)
    requires keys <= tm.Keys
    ensures Staged(tm, keys, Staged(tm, keys, data)) == Staged(tm, keys, data)
  {
    var once := Staged(tm, keys, data);
    assert forall k :: k in once ==> Coerce(tm[k], once[k]) == once[k];
  }

  // ---------------------------------------------------------------------------
  // Defaults filled in by `load`

  /** The dates `load` reads from the clock: `date('Y-m-d')` and `date('Y-m-d H:i:s')`. */
  datatype Clock = Clock(today: string, now: string)

  /** The value a not-null column without a default gets, by its type. */
  function TypeDefault(c: Column, clock: Clock): Value
  {
    match KindOf(c.typeName)
    case NumericKind => VInt(0)
    case DateKind => VStr(clock.today)
    case DateTimeKind => VStr(clock.now)
    case TextKind => VStr("")
  }

  /** The priority chain for a missing column: setting default, column default, null, type default. */
  function DefaultFor(k: string, c: Column, defaults: Row, clock: Clock): Value
  {
    if k in defaults then defaults[k]
    else if c.default != VNull then c.default
    else if c.nullable then VNull
    else TypeDefault(c, clock)
  }

  /** The data after `load` filled every missing column of the table model. */
  function FillDefaults(data: Row, tm: TableModel, defaults: Row, clock: Clock): (out: Row)
  {
    map k | k in data.Keys + tm.Keys :: if k in data then data[k] else DefaultFor(k, tm[k], defaults, clock)
  }

  /**
   * After filling, every column is present; keys already present are never
   * overwritten; a missing column takes the first applicable default of the chain.
   */
  lemma FillDefaultsSpec(data: Row, tm: TableModel, defaults: Row, clock: Clock, k: string)
    ensures var out := FillDefaults(data, tm, defaults, clock);
            out.Keys == data.Keys + tm.Keys &&
            (k in data ==> out[k] == data[k]) &&
            (k in tm && k !in data && k in defaults ==> out[k] == defaults[k]) &&
            (k in tm && k !in data && k !in defaults && tm[k].default != VNull ==> out[k] == tm[k].default) &&
            (k in tm && k !in data && k !in defaults && tm[k].default == VNull && tm[k].nullable ==> out[k] == VNull) &&
            ((k in tm && k !in data && k !in defaults && tm[k].default == VNull && !tm[k].nullable &&
              KindOf(tm[k].typeName) == NumericKind) ==> out[k] == VInt(0)) &&
            ((k in tm && k !in data && k !in defaults && tm[k].default == VNull && !tm[k].nullable &&
              KindOf(tm[k].typeName) == TextKind) ==> out[k] == VStr(""))
  {
  }

  /** A second pass of default filling finds nothing to fill. */
  lemma FillDefaultsIdempotent(data: Row, tm: TableModel, defaults: Row, clock: Clock)
    ensures FillDefaults(FillDefaults(data, tm, defaults, clock), tm, defaults, clock) == FillDefaults(data, tm, defaults, clock)
  {
  }

  // ---------------------------------------------------------------------------
  // The diff written by `save` on an existing row

  const ZkVersion: string := "zkversion"

  /** What `$db->quote(v)` compares: null stays apart, everything else by its string cast. */
  function Quoted(v: Value): Option<string>
  {
    if v == VNull then None else Some(ToStr(v))
  }

  /** Whether a staged value goes into `real_save`. */
  predicate Changed(k: string, v: Value, dbData: Row)
  {
    k !in dbData || k == ZkVersion || Quoted(dbData[k]) != Quoted(v)
  }

  /** `real_save`: the staged entries that are new, differ from the snapshot, or are `zkversion`. */
  function Diff(saving: Row, dbData: Row): (d: Row)
  {
    map k | k in saving && Changed(k, saving[k], dbData) :: saving[k]
  }

  /** The two rows agree key for key up to the quoting `save` compares with. */
  predicate QuoteEqual(a: Row, b: Row)
  {
    a.Keys == b.Keys && forall k :: k in a ==> Quoted(a[k]) == Quoted(b[k])
  }

  /**
   * The diff is exactly the changed part of `saving`: a key goes in iff it is
   * new, differs, or is `zkversion`, with the staged value.
   */
  lemma DiffSpec(saving: Row, dbData: Row, k: string)
    ensures var d := Diff(saving, dbData);
            d.Keys <= saving.Keys && (k in d ==> d[k] == saving[k]) &&
            (k in saving ==> (k in d <==> k !in dbData || k == ZkVersion || Quoted(dbData[k]) != Quoted(saving[k])))
  {
  }

  /** Merging only the diff into the snapshot gives what merging all of `saving` would give. */
  lemma DiffMerge(saving: Row, dbData: Row)
    ensures QuoteEqual(dbData + Diff(saving, dbData), dbData + saving)
  {
    var d := Diff(saving, dbData);
    forall k | k in dbData + d
      ensures Quoted((dbData + d)[k]) == Quoted((dbData + saving)[k])
    {
      if k in saving && k !in d {
        assert !Changed(k, saving[k], dbData);
      }
    }
    assert (dbData + d).Keys == (dbData + saving).Keys;
  }

  /** Saving the same values again right after a save writes nothing but `zkversion`. */
  lemma DiffAfterMerge(saving: Row, dbData: Row)
    ensures Diff(saving, dbData + Diff(saving, dbData)).Keys <= {ZkVersion}
  {
    var d := Diff(saving, dbData);
    var d2 := Diff(saving, dbData + d);
    forall k | k in d2
      ensures k == ZkVersion
    {
      assert Changed(k, saving[k], dbData + d);
    }
  }

  // ---------------------------------------------------------------------------
  // Ordering fields on `save` and `delete`

  /** The partition column as `save` and `shiftOrder` test it: only a truthy name counts. */
  function Dep(dep: Option<string>): (r: Option<string>)
    ensures r.Some? <==> dep.Some? && Named(dep.value)
    ensures r.Some? ==> r == dep
  {
    if dep.Some? && Named(dep.value) then dep else None
  }

  /** The table and the `real_save` array while `save` walks the ordering fields. */
  datatype Moved = Moved(rows: seq<Row>, realSave: Row)

  /**
   * One ordering field `k`: when its partition column is about to change, close
   * the gap in the old partition and put the row at the end of the new one.
   */
  function MoveStep(m: Moved, k: string, dep: Option<string>, dbData: Row): Moved
  {
    if Dep(dep).Some? && IsSet(m.realSave, dep.value) then
      var d := dep.value;
      var shifted := ShiftDown(m.rows, k, Some(d), Get(dbData, d), Get(dbData, k));
      Moved(shifted, m.realSave[k := VInt(NextValue(shifted, map[d := m.realSave[d]], k))])
    else m
  }

  /** The ordering fields in declaration order. */
  function ApplyMoves(rows: seq<Row>, orderBy: Dict<Option<string>>, realSave: Row, dbData: Row): Moved
    decreases |orderBy|
  {
    if orderBy == [] then Moved(rows, realSave)
    else
      var n := |orderBy| - 1;
      MoveStep(ApplyMoves(rows, orderBy[..n], realSave, dbData), orderBy[n].0, orderBy[n].1, dbData)
  }

  /**
   * The moves add to `real_save` only ordering fields and leave the other
   * entries alone; when no partition column is being changed, nothing moves.
   */
  lemma {:induction false} MovesOnlyTouchOrderFields(rows: seq<Row>, orderBy: Dict<Option<string>>, realSave: Row, dbData: Row)
    ensures var m := ApplyMoves(rows, orderBy, realSave, dbData);
            realSave.Keys <= m.realSave.Keys &&
            (forall k :: k in m.realSave && k !in DictKeys(orderBy) ==> k in realSave && m.realSave[k] == realSave[k])
    ensures (forall i :: 0 <= i < |orderBy| ==> Dep(orderBy[i].1).None? || !IsSet(realSave, orderBy[i].1.value)) ==>
            ApplyMoves(rows, orderBy, realSave, dbData) == Moved(rows, realSave)
    decreases |orderBy|
  {
    if orderBy != [] {
      var n := |orderBy| - 1;
      var init := orderBy[..n];
      MovesOnlyTouchOrderFields(rows, init, realSave, dbData);
      DictKeysPrefix(orderBy, n);
      assert DictKeys(orderBy)[n] == orderBy[n].0;
      if forall i :: 0 <= i < |orderBy| ==> Dep(orderBy[i].1).None? || !IsSet(realSave, orderBy[i].1.value) {
        assert forall i :: 0 <= i < |init| ==> init[i] == orderBy[i];
      }
    }
  }

  /**
   * The ordering fields are kept apart: each differs from the primary key,
   * from the other fields, and from every field's partition column.
   */
  predicate SeparateOrders(orderBy: Dict<Option<string>>, pk: string)
  {
    forall i, j :: 0 <= i < |orderBy| && 0 <= j < |orderBy| ==>
      orderBy[i].0 != pk && (i != j ==> orderBy[i].0 != orderBy[j].0) &&
      (Dep(orderBy[j].1).Some? ==> orderBy[i].0 != orderBy[j].1.value)
  }

  /** The columns the bookkeeping of one ordering field reads or writes, and the primary key. */
  function OrderCols(e: (string, Option<string>), pk: string): set<string>
  {
    {e.0, pk} + (if Dep(e.1).Some? then {e.1.value} else {})
  }

  /**
   * Moving a stored row to another partition of ordering field `i` through
   * `save` leaves both the partition it left and the one it entered numbered
   * 1..n, whatever the other ordering fields do: `save` closes the old gap and
   * sets the order to the new partition's maximum plus one.
   */
  lemma SaveMoveKeepsDense(rows: seq<Row>, j: int, pk: string, orderBy: Dict<Option<string>>, i: int, saving: Row)
    requires 0 <= j < |rows| && UniqueKeys(rows, pk) && pk !in saving
    requires 0 <= i < |orderBy| && SeparateOrders(orderBy, pk)
    requires var dep := orderBy[i].1; Dep(dep).Some? && dep.value != ZkVersion && IsSet(Diff(saving, rows[j]), dep.value)
    requires var (k, dep) := orderBy[i];
             OrderDense(Partition(rows, dep, Get(rows[j], dep.value)), k) &&
             OrderDense(Partition(rows, dep, saving[dep.value]), k)
    ensures var (k, dep) := orderBy[i];
            var m := ApplyMoves(rows, orderBy, Diff(saving, rows[j]), rows[j]);
            var after := UpdateWhere(m.rows, map[pk := Get(rows[j], pk)], m.realSave);
            OrderDense(Partition(after, dep, Get(rows[j], dep.value)), k) &&
            OrderDense(Partition(after, dep, saving[dep.value]), k)
  {
    var (k, dep) := orderBy[i];
    var d := dep.value;
    var rs := Diff(saving, rows[j]);
    var cols := OrderCols(orderBy[i], pk);
    MovesAgree(rows, orderBy, rs, rows[j], pk, i, |orderBy|);
    assert orderBy[..|orderBy|] == orderBy;
    var m := ApplyMoves(rows, orderBy, rs, rows[j]);
    assert orderBy[i] == (k, Some(d));
    MoveOne(rows, orderBy[i], rs, rows[j]);
    var m1 := ApplyMoves(rows, [(k, Some(d))], rs, rows[j]);
    var w := map[pk := Get(rows[j], pk)];
    AgreeUpdate(m.rows, m1.rows, cols, w, m.realSave, m1.realSave);
    SaveMoveOneField(rows, j, pk, k, d, saving);
    var after, after1 := UpdateWhere(m.rows, w, m.realSave), UpdateWhere(m1.rows, w, m1.realSave);
    AgreePartition(after, after1, cols, dep, Get(rows[j], d));
    AgreeDense(Partition(after, dep, Get(rows[j], d)), Partition(after1, dep, Get(rows[j], d)), cols, k);
    AgreePartition(after, after1, cols, dep, saving[d]);
    AgreeDense(Partition(after, dep, saving[d]), Partition(after1, dep, saving[d]), cols, k);
  }

  /**
   * On the columns of field `i`, the moves of all the ordering fields amount
   * to the move of field `i` alone: the other fields shift and set only their
   * own columns.
   */
  lemma {:induction false} MovesAgree(rows: seq<Row>, orderBy: Dict<Option<string>>, realSave: Row, dbData: Row, pk: string, i: int, n: nat)
    requires SeparateOrders(orderBy, pk) && 0 <= i < |orderBy| && n <= |orderBy|
    ensures var cols := OrderCols(orderBy[i], pk);
            var m := ApplyMoves(rows, orderBy[..n], realSave, dbData);
            var s := if n <= i then Moved(rows, realSave) else MoveStep(Moved(rows, realSave), orderBy[i].0, orderBy[i].1, dbData);
            Agree(m.rows, s.rows, cols) && SameOn(m.realSave, s.realSave, cols)
    decreases n
  {
    var cols := OrderCols(orderBy[i], pk);
    if n == 0 {
      assert orderBy[..0] == [];
    } else {
      var ob := orderBy[..n];
      assert ob[..n - 1] == orderBy[..n - 1] && ob[n - 1] == orderBy[n - 1];
      MovesAgree(rows, orderBy, realSave, dbData, pk, i, n - 1);
      var prev := ApplyMoves(rows, orderBy[..n - 1], realSave, dbData);
      var (k, dep) := orderBy[n - 1];
      assert ApplyMoves(rows, ob, realSave, dbData) == MoveStep(prev, k, dep, dbData);
      if Dep(dep).Some? && IsSet(prev.realSave, dep.value) {
        var d := dep.value;
        if n - 1 == i {
          assert IsSet(realSave, d);
          AgreeShift(prev.rows, rows, cols, k, Some(d), Get(dbData, d), Get(dbData, k));
          assert prev.realSave[d] == realSave[d];
          AgreeNext(ShiftDown(prev.rows, k, Some(d), Get(dbData, d), Get(dbData, k)),
                    ShiftDown(rows, k, Some(d), Get(dbData, d), Get(dbData, k)), cols, map[d := realSave[d]], k);
        } else {
          ShiftElsewhere(prev.rows, cols, k, Some(d), Get(dbData, d), Get(dbData, k));
        }
      } else if n - 1 == i {
        assert !(Dep(dep).Some? && IsSet(realSave, dep.value));
      }
    }
  }

  lemma MoveOne(rows: seq<Row>, e: (string, Option<string>), realSave: Row, dbData: Row)
    ensures ApplyMoves(rows, [e], realSave, dbData) == MoveStep(Moved(rows, realSave), e.0, e.1, dbData)
  {
    assert [e][..0] == [];
  }

  /** `SaveMoveKeepsDense` for a table with one ordering field. */
  lemma SaveMoveOneField(rows: seq<Row>, j: int, pk: string, k: string, d: string, saving: Row)
    requires 0 <= j < |rows| && UniqueKeys(rows, pk)
    requires k != pk && k != d && d != ZkVersion && pk !in saving && Named(d)
    requires IsSet(Diff(saving, rows[j]), d)
    requires OrderDense(Partition(rows, Some(d), Get(rows[j], d)), k)
    requires OrderDense(Partition(rows, Some(d), saving[d]), k)
    ensures var realSave := Diff(saving, rows[j]);
            var m := ApplyMoves(rows, [(k, Some(d))], realSave, rows[j]);
            var after := UpdateWhere(m.rows, map[pk := Get(rows[j], pk)], m.realSave);
            OrderDense(Partition(after, Some(d), Get(rows[j], d)), k) &&
            OrderDense(Partition(after, Some(d), saving[d]), k)
  {
    var m := ApplyMoves(rows, [(k, Some(d))], Diff(saving, rows[j]), rows[j]);
    SingleMove(rows, j, pk, k, d, saving);
    MoveKeepsDense(rows, k, d, pk, j, m.realSave);
  }

  /** What one move step leaves behind, spelled out for `SaveMoveOneField`. */
  lemma SingleMove(rows: seq<Row>, j: int, pk: string, k: string, d: string, saving: Row)
    requires 0 <= j < |rows|
    requires k != d && k != pk && d != ZkVersion && pk !in saving && Named(d)
    requires IsSet(Diff(saving, rows[j]), d)
    ensures var m := ApplyMoves(rows, [(k, Some(d))], Diff(saving, rows[j]), rows[j]);
            var shifted := ShiftDown(rows, k, Some(d), Get(rows[j], d), Get(rows[j], k));
            m.rows == shifted && pk !in m.realSave && d in m.realSave && m.realSave[d] == saving[d] &&
            m.realSave[d] != Get(rows[j], d) &&
            k in m.realSave && m.realSave[k] == VInt(NextValue(shifted, map[d := m.realSave[d]], k))
  {
    var realSave := Diff(saving, rows[j]);
    var ob: Dict<Option<string>> := [(k, Some(d))];
    assert ob[..0] == [];
    assert ApplyMoves(rows, ob, realSave, rows[j]) == MoveStep(Moved(rows, realSave), k, Some(d), rows[j]);
    assert realSave[d] == saving[d];
    assert Changed(d, saving[d], rows[j]);
    if d in rows[j] {
      assert Quoted(rows[j][d]) != Quoted(saving[d]);
    }
  }

  /** The parent `delete` hands to `shiftOrder`, as far as `shiftOrder` reads it. */
  function ShiftParent(dep: Option<string>, dbData: Row): Value
  {
    if Dep(dep).Some? then Get(dbData, dep.value) else VNull
  }

  /** The table, the element's data and its snapshot around a `save` of an existing row. */
  datatype SaveState = SaveState(rows: seq<Row>, data: Row, dbData: Row)

  /**
   * `save` of an existing row as written: the moved order values reach the
   * table and the snapshot, but not the element's data.
   */
  function ExistingSaveAsWritten(st: SaveState, orderBy: Dict<Option<string>>, pk: string, saving: Row): SaveState
  {
    var realSave := Diff(saving, st.dbData);
    if realSave == map[] then st
    else
      var m := ApplyMoves(st.rows, orderBy, realSave, st.dbData);
      SaveState(UpdateWhere(m.rows, map[pk := Get(st.data, pk)], m.realSave), st.data, st.dbData + m.realSave)
  }

  /** `save` of an existing row with the moved order values also written into the element's data. */
  function ExistingSave(st: SaveState, orderBy: Dict<Option<string>>, pk: string, saving: Row): SaveState
  {
    var realSave := Diff(saving, st.dbData);
    if realSave == map[] then st
    else
      var m := ApplyMoves(st.rows, orderBy, realSave, st.dbData);
      SaveState(UpdateWhere(m.rows, map[pk := Get(st.data, pk)], m.realSave), st.data + m.realSave, st.dbData + m.realSave)
  }

  function Restrict(r: Row, keys: set<string>): Row
  {
    map k | k in r && k in keys :: r[k]
  }

  /**
   * After a save, saving the same keys again from the element's data writes
   * nothing but `zkversion`: data and snapshot agree on everything written.
   */
  lemma ResaveWritesNothing(st: SaveState, orderBy: Dict<Option<string>>, pk: string, saving: Row)
    requires forall k :: k in saving ==> k in st.data && st.data[k] == saving[k]
    ensures var st1 := ExistingSave(st, orderBy, pk, saving);
            Diff(Restrict(st1.data, saving.Keys), st1.dbData).Keys <= {ZkVersion}
  {
    var realSave := Diff(saving, st.dbData);
    var st1 := ExistingSave(st, orderBy, pk, saving);
    var again := Restrict(st1.data, saving.Keys);
    if realSave != map[] {
      MovesOnlyTouchOrderFields(st.rows, orderBy, realSave, st.dbData);
    }
    forall k | k in again && k != ZkVersion
      ensures !Changed(k, again[k], st1.dbData)
    {
      if k !in realSave {
        assert !Changed(k, saving[k], st.dbData);
      }
    }
  }

  /** The element and its sibling of the counterexample below, both first in their partitions. */
  const MovedRow: Row := map["id" := VInt(1), "parent" := VInt(1), "ord" := VInt(1)]
  const SiblingRow: Row := map["id" := VInt(2), "parent" := VInt(2), "ord" := VInt(1)]
  const OrderDecl: Dict<Option<string>> := [("ord", Some("parent"))]
  /** The element's data once `parent` is set to 2, and the row once it is saved. */
  const MovedData: Row := map["id" := VInt(1), "parent" := VInt(2), "ord" := VInt(1)]
  const SavedRow: Row := map["id" := VInt(1), "parent" := VInt(2), "ord" := VInt(2)]

  /** The first save sees only the partition column change. */
  lemma FirstSaveDiff()
    ensures Diff(WithoutPrimary(MovedData, "id"), MovedRow) == map["parent" := VInt(2)]
  {
    var saving := WithoutPrimary(MovedData, "id");
    assert saving == map["parent" := VInt(2), "ord" := VInt(1)];
    assert !Changed("ord", VInt(1), MovedRow) && Changed("parent", VInt(2), MovedRow);
  }

  /** Nothing in partition 1 lies above the row, and the row becomes second in partition 2. */
  lemma FirstSaveMoves()
    ensures ApplyMoves([MovedRow, SiblingRow], OrderDecl, map["parent" := VInt(2)], MovedRow)
            == Moved([MovedRow, SiblingRow], map["parent" := VInt(2), "ord" := VInt(2)])
  {
    var rows := [MovedRow, SiblingRow];
    assert ShiftRow(MovedRow, "ord", Some("parent"), VInt(1), VInt(1)) == MovedRow;
    assert ShiftRow(SiblingRow, "ord", Some("parent"), VInt(1), VInt(1)) == SiblingRow;
    assert ShiftDown(rows, "ord", Some("parent"), VInt(1), VInt(1)) == rows;
    NextOrderInSecond();
    assert OrderDecl[..0] == [];
    var r := map["parent" := VInt(2)];
    assert IsSet(r, "parent") && Named("parent");
    assert ApplyMoves(rows, OrderDecl[..0], r, MovedRow) == Moved(rows, r);
  }

  /** Only the element's own row is updated. */
  lemma FirstSaveUpdate()
    ensures UpdateWhere([MovedRow, SiblingRow], map["id" := VInt(1)], map["parent" := VInt(2), "ord" := VInt(2)])
            == [SavedRow, SiblingRow]
  {
    assert Get(SiblingRow, "id") != VInt(1);
    assert !Matches(SiblingRow, map["id" := VInt(1)]);
    assert MovedRow + map["parent" := VInt(2), "ord" := VInt(2)] == SavedRow;
  }

  /** Partition 2 of the counterexample holds one row, numbered 1. */
  lemma NextOrderInSecond()
    ensures NextValue([MovedRow, SiblingRow], map["parent" := VInt(2)], "ord") == 2
  {
    var w := map["parent" := VInt(2)];
    assert [MovedRow, SiblingRow][1..] == [SiblingRow] && [SiblingRow][1..] == [];
    assert Get(MovedRow, "parent") != w["parent"];
    assert !Matches(MovedRow, w) && Matches(SiblingRow, w);
    assert MaxOf([SiblingRow], w, "ord") == Some(1);
  }

  /** The first save as written: the row moves to second place in partition 2, the data keeps order 1. */
  lemma FirstSaveAsWritten()
    ensures ExistingSaveAsWritten(SaveState([MovedRow, SiblingRow], MovedData, MovedRow), OrderDecl, "id", WithoutPrimary(MovedData, "id"))
            == SaveState([SavedRow, SiblingRow], MovedData, SavedRow)
  {
    FirstSaveDiff();
    FirstSaveMoves();
    FirstSaveUpdate();
    MergeMoved();
  }

  /** The first save corrected: the data takes the moved order as well. */
  lemma FirstSaveFixed()
    ensures ExistingSave(SaveState([MovedRow, SiblingRow], MovedData, MovedRow), OrderDecl, "id", WithoutPrimary(MovedData, "id"))
            == SaveState([SavedRow, SiblingRow], SavedRow, SavedRow)
  {
    FirstSaveDiff();
    FirstSaveMoves();
    FirstSaveUpdate();
    MergeMoved();
  }

  /** Both the stored row and the data become the saved row once the move is merged in. */
  lemma MergeMoved()
    ensures MovedRow + map["parent" := VInt(2), "ord" := VInt(2)] == SavedRow
    ensures MovedData + map["parent" := VInt(2), "ord" := VInt(2)] == SavedRow
  {
    var m := map["parent" := VInt(2), "ord" := VInt(2)];
    assert (MovedRow + m).Keys == SavedRow.Keys;
    assert (MovedData + m).Keys == SavedRow.Keys;
  }

  /** The second save sees only the stale order differ from the stored row. */
  lemma SecondSaveDiff()
    ensures Diff(WithoutPrimary(MovedData, "id"), SavedRow) == map["ord" := VInt(1)]
  {
    var saving := WithoutPrimary(MovedData, "id");
    assert saving == map["parent" := VInt(2), "ord" := VInt(1)];
    assert Changed("ord", VInt(1), SavedRow) && !Changed("parent", VInt(2), SavedRow);
  }

  /** The second save, as written: only the stale order differs from the stored row, and it is written back. */
  lemma SecondSaveAsWritten()
    ensures ExistingSaveAsWritten(SaveState([SavedRow, SiblingRow], MovedData, SavedRow), OrderDecl, "id", WithoutPrimary(MovedData, "id"))
            == SaveState([MovedData, SiblingRow], MovedData, MovedData)
  {
    SecondSaveDiff();
    var r := map["ord" := VInt(1)];
    assert OrderDecl[..0] == [];
    assert !IsSet(r, "parent");
    assert ApplyMoves([SavedRow, SiblingRow], OrderDecl, r, SavedRow) == Moved([SavedRow, SiblingRow], r);
    assert Get(SiblingRow, "id") != VInt(1);
    assert !Matches(SiblingRow, map["id" := VInt(1)]);
    assert SavedRow + r == MovedData;
  }

  /**
   * As written, moving row 1 into partition 2 numbers it 2 there, but a
   * following `save()` without data writes its stale order 1 back, so
   * partition 2 holds two rows numbered 1.
   */
  lemma StaleOrderAsWritten()
    ensures var st0 := SaveState([MovedRow, SiblingRow], MovedData, MovedRow);
            var st1 := ExistingSaveAsWritten(st0, OrderDecl, "id", WithoutPrimary(st0.data, "id"));
            var st2 := ExistingSaveAsWritten(st1, OrderDecl, "id", WithoutPrimary(st1.data, "id"));
            OrderDense(Partition(st1.rows, Some("parent"), VInt(2)), "ord") &&
            !OrderDense(Partition(st2.rows, Some("parent"), VInt(2)), "ord")
  {
    FirstSaveAsWritten();
    SecondSaveAsWritten();
    SavedPartitionDense();
    WrittenBackNotDense();
  }

  /** After the first save partition 2 is numbered 1, 2. */
  lemma SavedPartitionDense()
    ensures OrderDense(Partition([SavedRow, SiblingRow], Some("parent"), VInt(2)), "ord")
  {
    PartitionTwo(SavedRow, SiblingRow, "parent", VInt(2));
    assert Ord(SavedRow, "ord") == 2 && Ord(SiblingRow, "ord") == 1;
  }

  /** With the stale order written back, partition 2 is numbered 1, 1. */
  lemma WrittenBackNotDense()
    ensures !OrderDense(Partition([MovedData, SiblingRow], Some("parent"), VInt(2)), "ord")
  {
    PartitionTwo(MovedData, SiblingRow, "parent", VInt(2));
    assert Ord(MovedData, "ord") == 1 && Ord(SiblingRow, "ord") == 1;
  }

  /** The second save, corrected: the data agrees with the stored row, so nothing is written. */
  lemma SecondSaveFixed()
    ensures ExistingSave(SaveState([SavedRow, SiblingRow], SavedRow, SavedRow), OrderDecl, "id", WithoutPrimary(SavedRow, "id"))
            == SaveState([SavedRow, SiblingRow], SavedRow, SavedRow)
  {
    var saving := WithoutPrimary(SavedRow, "id");
    assert saving == map["parent" := VInt(2), "ord" := VInt(2)];
    assert !Changed("ord", VInt(2), SavedRow) && !Changed("parent", VInt(2), SavedRow);
    assert Diff(saving, SavedRow) == map[];
  }

  /** With the moved order written into the data as well, the second save writes nothing and partition 2 stays dense. */
  lemma StaleOrderFixed()
    ensures var st0 := SaveState([MovedRow, SiblingRow], MovedData, MovedRow);
            var st1 := ExistingSave(st0, OrderDecl, "id", WithoutPrimary(st0.data, "id"));
            var st2 := ExistingSave(st1, OrderDecl, "id", WithoutPrimary(st1.data, "id"));
            st2 == st1 && OrderDense(Partition(st2.rows, Some("parent"), VInt(2)), "ord")
  {
    FirstSaveFixed();
    SecondSaveFixed();
    SavedPartitionDense();
  }

  /**
   * `save` of a new row as written: the row is inserted with its
   * auto-increment values and the returned id, but the snapshot is left as it was.
   */
  function NewSaveAsWritten(st: SaveState, ai: Dict<seq<string>>, pk: string, saving: Row): SaveState
  {
    var full := AutoIncrements(saving, ai, st.rows);
    var id := VInt(NextValue(st.rows, map[], pk));
    SaveState(st.rows + [full[pk := id]], (st.data + full)[pk := id], st.dbData)
  }

  /** `save` of a new row with the snapshot set to the row just inserted. */
  function NewSave(st: SaveState, ai: Dict<seq<string>>, pk: string, saving: Row): SaveState
  {
    var full := AutoIncrements(saving, ai, st.rows);
    var id := VInt(NextValue(st.rows, map[], pk));
    SaveState(st.rows + [full[pk := id]], (st.data + full)[pk := id], full[pk := id])
  }

  /** An auto-increment value is the value it replaces or a number. */
  lemma {:induction false} AutoIncrementsValues(saving: Row, ai: Dict<seq<string>>, rows: seq<Row>)
    ensures var out := AutoIncrements(saving, ai, rows);
            forall k :: k in out ==> (k in saving && out[k] == saving[k]) || out[k].VInt?
    decreases |ai|
  {
    if ai != [] {
      AutoIncrementsValues(saving, ai[..|ai| - 1], rows);
    }
  }

  /**
   * After inserting, staging the element's data again and diffing it against
   * the snapshot finds nothing to write but `zkversion`.
   */
  lemma InsertThenResaveWritesNothing(st: SaveState, tm: TableModel, ai: Dict<seq<string>>, pk: string)
    ensures var keys := tm.Keys - {pk};
            var saving := Staged(tm, keys, WithoutPrimary(st.data, pk));
            var st1 := NewSave(st, ai, pk, saving);
            Diff(Staged(tm, keys, WithoutPrimary(st1.data, pk)), st1.dbData).Keys <= {ZkVersion}
  {
    var keys := tm.Keys - {pk};
    var saving := Staged(tm, keys, WithoutPrimary(st.data, pk));
    var full := AutoIncrements(saving, ai, st.rows);
    var st1 := NewSave(st, ai, pk, saving);
    AutoIncrementsValues(saving, ai, st.rows);
    AutoIncrementsKeep(saving, ai, st.rows);
    var again := Staged(tm, keys, WithoutPrimary(st1.data, pk));
    forall k | k in again && k != ZkVersion
      ensures !Changed(k, again[k], st1.dbData)
    {
      assert k != pk && k in keys && k in full;
      assert st1.data[k] == full[k];
      if k in saving && full[k] == saving[k] {
        assert Coerce(tm[k], saving[k]) == saving[k];
      }
    }
  }

  /** The row a new element is inserted as in the counterexample below, and the same row after the second save. */
  const InsertedRow: Row := map["id" := VInt(3), "parent" := VInt(2), "ord" := VInt(2)]
  const RenumberedRow: Row := map["id" := VInt(3), "parent" := VInt(2), "ord" := VInt(3)]
  const OrderAuto: Dict<seq<string>> := [("ord", ["parent"])]

  lemma NextValuesBeforeInsert()
    ensures NextValue([SiblingRow], map[], "id") == 3
    ensures NextValue([SiblingRow], map["parent" := VInt(2)], "ord") == 2
  {
    assert [SiblingRow][1..] == [];
    assert Matches(SiblingRow, map[]) && Matches(SiblingRow, map["parent" := VInt(2)]);
    assert MaxOf([SiblingRow], map[], "id") == Some(2);
    assert MaxOf([SiblingRow], map["parent" := VInt(2)], "ord") == Some(1);
  }

  /** The new element of partition 2 is numbered 2 and gets id 3. */
  lemma FirstInsert()
    ensures NewSaveAsWritten(SaveState([SiblingRow], map["parent" := VInt(2)], map[]), OrderAuto, "id", map["parent" := VInt(2)])
            == SaveState([SiblingRow, InsertedRow], InsertedRow, map[])
    ensures NewSave(SaveState([SiblingRow], map["parent" := VInt(2)], map[]), OrderAuto, "id", map["parent" := VInt(2)])
            == SaveState([SiblingRow, InsertedRow], InsertedRow, InsertedRow)
  {
    var saving := map["parent" := VInt(2)];
    NextValuesBeforeInsert();
    assert OrderAuto[..0] == [];
    assert WhereFrom(saving, ["parent"]) == map["parent" := VInt(2)];
    assert AutoIncrements(saving, OrderAuto, [SiblingRow]) == saving["ord" := VInt(2)];
    assert saving["ord" := VInt(2)]["id" := VInt(3)] == InsertedRow;
    assert (saving + saving["ord" := VInt(2)])["id" := VInt(3)] == InsertedRow;
  }

  /** Partition 2 after the insert holds orders 1 and 2. */
  lemma NextOrderAfterInsert()
    ensures NextValue([SiblingRow, InsertedRow], map["parent" := VInt(2)], "ord") == 3
  {
    var w := map["parent" := VInt(2)];
    assert [SiblingRow, InsertedRow][1..] == [InsertedRow] && [InsertedRow][1..] == [];
    assert Matches(SiblingRow, w) && Matches(InsertedRow, w);
    assert MaxOf([InsertedRow], w, "ord") == Some(2);
  }

  /** Diffed against the empty snapshot the whole row is new, so the row moves to the end of its own partition. */
  lemma SecondSaveAfterInsertDiff()
    ensures Diff(WithoutPrimary(InsertedRow, "id"), map[]) == map["parent" := VInt(2), "ord" := VInt(2)]
  {
    assert WithoutPrimary(InsertedRow, "id") == map["parent" := VInt(2), "ord" := VInt(2)];
  }

  lemma SecondSaveAfterInsertMoves()
    ensures ApplyMoves([SiblingRow, InsertedRow], OrderDecl, map["parent" := VInt(2), "ord" := VInt(2)], map[])
            == Moved([SiblingRow, InsertedRow], map["parent" := VInt(2), "ord" := VInt(3)])
  {
    var rows := [SiblingRow, InsertedRow];
    var r := map["parent" := VInt(2), "ord" := VInt(2)];
    assert ShiftRow(SiblingRow, "ord", Some("parent"), VNull, VNull) == SiblingRow;
    assert ShiftRow(InsertedRow, "ord", Some("parent"), VNull, VNull) == InsertedRow;
    assert ShiftDown(rows, "ord", Some("parent"), VNull, VNull) == rows;
    NextOrderAfterInsert();
    assert OrderDecl[..0] == [];
    assert IsSet(r, "parent") && Named("parent");
    assert ApplyMoves(rows, OrderDecl[..0], r, map[]) == Moved(rows, r);
  }

  lemma SecondSaveAfterInsertAsWritten()
    ensures ExistingSave(SaveState([SiblingRow, InsertedRow], InsertedRow, map[]), OrderDecl, "id", WithoutPrimary(InsertedRow, "id")).rows
            == [SiblingRow, RenumberedRow]
  {
    SecondSaveAfterInsertDiff();
    SecondSaveAfterInsertMoves();
    var moved := map["parent" := VInt(2), "ord" := VInt(3)];
    assert Get(SiblingRow, "id") != VInt(3);
    assert !Matches(SiblingRow, map["id" := VInt(3)]);
    assert InsertedRow + moved == RenumberedRow;
    assert UpdateRow(InsertedRow, map["id" := VInt(3)], moved) == RenumberedRow;
  }

  /**
   * As written, saving a just-inserted element a second time, unchanged,
   * renumbers it past itself: partition 2 goes from orders 1, 2 to 1, 3.
   */
  lemma ResaveAfterInsertAsWritten()
    ensures var st1 := NewSaveAsWritten(SaveState([SiblingRow], map["parent" := VInt(2)], map[]), OrderAuto, "id", map["parent" := VInt(2)]);
            var st2 := ExistingSave(st1, OrderDecl, "id", WithoutPrimary(st1.data, "id"));
            OrderDense(Partition(st1.rows, Some("parent"), VInt(2)), "ord") &&
            !OrderDense(Partition(st2.rows, Some("parent"), VInt(2)), "ord")
  {
    FirstInsert();
    SecondSaveAfterInsertAsWritten();
    InsertedPartitionDense();
    RenumberedNotDense();
  }

  /** After the insert partition 2 is numbered 1, 2. */
  lemma InsertedPartitionDense()
    ensures OrderDense(Partition([SiblingRow, InsertedRow], Some("parent"), VInt(2)), "ord")
  {
    PartitionTwo(SiblingRow, InsertedRow, "parent", VInt(2));
    assert Ord(SiblingRow, "ord") == 1 && Ord(InsertedRow, "ord") == 2;
  }

  /** After the renumbering partition 2 is numbered 1, 3. */
  lemma RenumberedNotDense()
    ensures !OrderDense(Partition([SiblingRow, RenumberedRow], Some("parent"), VInt(2)), "ord")
  {
    PartitionTwo(SiblingRow, RenumberedRow, "parent", VInt(2));
    assert Ord(RenumberedRow, "ord") == 3;
  }

  /** With the snapshot set on insert, the second save finds nothing to write. */
  lemma ResaveAfterInsertFixed()
    ensures var st1 := NewSave(SaveState([SiblingRow], map["parent" := VInt(2)], map[]), OrderAuto, "id", map["parent" := VInt(2)]);
            ExistingSave(st1, OrderDecl, "id", WithoutPrimary(st1.data, "id")) == st1
  {
    FirstInsert();
    var saving := WithoutPrimary(InsertedRow, "id");
    assert saving == map["parent" := VInt(2), "ord" := VInt(2)];
    assert !Changed("ord", VInt(2), InsertedRow) && !Changed("parent", VInt(2), InsertedRow);
    assert Diff(saving, InsertedRow) == map[];
  }

  lemma PartitionTwo(x: Row, y: Row, d: string, p: Value)
    requires Get(x, d) == p && Get(y, d) == p
    ensures Partition([x, y], Some(d), p) == [x, y]
  {
    PartitionConcat([x], [y], Some(d), p);
    assert [x] + [y] == [x, y];
    assert [x][1..] == [] && [y][1..] == [];
  }

  /** The shifts `delete` performs, one per ordering field, with the row's stored values. */
  function ShiftAll(rows: seq<Row>, orderBy: Dict<Option<string>>, dbData: Row): seq<Row>
    decreases |orderBy|
  {
    if orderBy == [] then rows
    else
      var n := |orderBy| - 1;
      var (k, dep) := orderBy[n];
      ShiftDown(ShiftAll(rows, orderBy[..n], dbData), k, Dep(dep), ShiftParent(dep, dbData), Get(dbData, k))
  }

  /**
   * `delete` keeps ordering field `i` in order, whatever the other fields do:
   * after the shifts of all the fields and the delete by primary key, every
   * partition that was numbered 1..n still is (the row's own one less).
   */
  lemma DeleteOneKeepsDense(rows: seq<Row>, j: int, pk: string, orderBy: Dict<Option<string>>, i: int)
    requires 0 <= j < |rows| && UniqueKeys(rows, pk)
    requires 0 <= i < |orderBy| && SeparateOrders(orderBy, pk)
    ensures var (k, dep) := orderBy[i];
            var after := DeleteWhere(ShiftAll(rows, orderBy, rows[j]), map[pk := Get(rows[j], pk)]);
            forall q :: OrderDense(Partition(rows, Dep(dep), q), k) ==> OrderDense(Partition(after, Dep(dep), q), k)
  {
    var (k, dep) := orderBy[i];
    var dd := Dep(dep);
    var cols := OrderCols(orderBy[i], pk);
    var w := map[pk := Get(rows[j], pk)];
    var p := ShiftParent(dep, rows[j]);
    assert p == if dd.Some? then Get(rows[j], dd.value) else VNull;
    var single := ShiftField(rows, orderBy[i], rows[j]);
    ShiftAllAgree(rows, orderBy, rows[j], pk, i, |orderBy|);
    assert orderBy[..|orderBy|] == orderBy;
    AgreeDelete(ShiftAll(rows, orderBy, rows[j]), single, cols, w);
    var after, afterOne := DeleteWhere(ShiftAll(rows, orderBy, rows[j]), w), DeleteWhere(single, w);
    forall q | OrderDense(Partition(rows, dd, q), k)
      ensures OrderDense(Partition(after, dd, q), k)
    {
      AgreePartition(after, afterOne, cols, dd, q);
      AgreeDense(Partition(after, dd, q), Partition(afterOne, dd, q), cols, k);
      if dd.None? {
        PartitionNone(rows, q);
        PartitionNone(rows, p);
        PartitionNone(afterOne, q);
        PartitionNone(afterOne, p);
        DeleteKeepsDense(rows, k, dd, pk, j);
      } else if q == p {
        DeleteKeepsDense(rows, k, dd, pk, j);
      } else {
        DeleteAfterShift(rows, k, dd, p, pk, j);
        OtherPartitionKept(rows, k, dd.value, p, j, q);
      }
    }
  }

  /** The shift `delete` performs for one ordering field. */
  function ShiftField(rows: seq<Row>, e: (string, Option<string>), dbData: Row): seq<Row>
  {
    ShiftDown(rows, e.0, Dep(e.1), ShiftParent(e.1, dbData), Get(dbData, e.0))
  }

  /** On the columns of field `i`, the shifts of all the ordering fields amount to the shift of field `i` alone. */
  lemma {:induction false} ShiftAllAgree(rows: seq<Row>, orderBy: Dict<Option<string>>, dbData: Row, pk: string, i: int, n: nat)
    requires SeparateOrders(orderBy, pk) && 0 <= i < |orderBy| && n <= |orderBy|
    ensures Agree(ShiftAll(rows, orderBy[..n], dbData), if n <= i then rows else ShiftField(rows, orderBy[i], dbData),
                  OrderCols(orderBy[i], pk))
    decreases n
  {
    if n == 0 {
      assert orderBy[..0] == [];
    } else {
      var ob := orderBy[..n];
      assert ob[..n - 1] == orderBy[..n - 1] && ob[n - 1] == orderBy[n - 1];
      ShiftAllAgree(rows, orderBy, dbData, pk, i, n - 1);
      var prev := ShiftAll(rows, orderBy[..n - 1], dbData);
      var e := orderBy[n - 1];
      assert ShiftAll(rows, ob, dbData) == ShiftField(prev, e, dbData);
      var cols := OrderCols(orderBy[i], pk);
      if n - 1 == i {
        ShiftStepAgree(prev, rows, e, dbData, cols, true);
        assert Agree(ShiftAll(rows, ob, dbData), ShiftField(rows, orderBy[i], dbData), cols);
      } else {
        assert e.0 !in cols;
        ShiftStepAgree(prev, if n - 1 <= i then rows else ShiftField(rows, orderBy[i], dbData), e, dbData, cols, false);
      }
    }
  }

  /** One shift keeps agreement: on the same field for both tables, or on a field outside `cols` for one of them. */
  lemma ShiftStepAgree(a: seq<Row>, b: seq<Row>, e: (string, Option<string>), dbData: Row, cols: set<string>, same: bool)
    requires Agree(a, b, cols)
    requires same ==> e.0 in cols && (Dep(e.1).Some? ==> e.1.value in cols)
    requires !same ==> e.0 !in cols
    ensures Agree(ShiftField(a, e, dbData), if same then ShiftField(b, e, dbData) else b, cols)
  {
    if same {
      AgreeShift(a, b, cols, e.0, Dep(e.1), ShiftParent(e.1, dbData), Get(dbData, e.0));
    } else {
      ShiftElsewhere(a, cols, e.0, Dep(e.1), ShiftParent(e.1, dbData), Get(dbData, e.0));
      AgreeTrans(ShiftField(a, e, dbData), a, b, cols);
    }
  }

  // ---------------------------------------------------------------------------
  // Auto-increment on insert

  /** The where-array `save` builds from the auto-increment field's `depending_on` list. */
  function WhereFrom(saving: Row, deps: seq<string>): (w: Where)
    ensures forall d :: d in w <==> d in deps
    ensures forall d :: d in w ==> w[d] == Get(saving, d)
  {
    map d | d in deps :: Get(saving, d)
  }

  /** One auto-increment field: an unset or falsy value becomes the partition's maximum plus one. */
  function AutoStep(saving: Row, k: string, deps: seq<string>, rows: seq<Row>): Row
  {
    if !Truthy(Get(saving, k)) then saving[k := VInt(NextValue(rows, WhereFrom(saving, deps), k))] else saving
  }

  function AutoIncrements(saving: Row, ai: Dict<seq<string>>, rows: seq<Row>): Row
    decreases |ai|
  {
    if ai == [] then saving
    else
      var n := |ai| - 1;
      AutoStep(AutoIncrements(saving, ai[..n], rows), ai[n].0, ai[n].1, rows)
  }

  lemma {:induction false} DictKeysInit<V>(d: Dict<V>)
    requires d != []
    ensures DictKeys(d) == DictKeys(d[..|d| - 1]) + [d[|d| - 1].0]
  {
    if |d| > 1 {
      var init := d[..|d| - 1];
      DictKeysInit(d[1..]);
      assert d[1..][..|d| - 2] == init[1..];
      assert d[1..][|d| - 2] == d[|d| - 1];
      assert DictKeys(init) == [init[0].0] + DictKeys(init[1..]);
    }
  }

  /** The keys of a prefix are keys of the whole. */
  lemma DictKeysPrefix<V>(d: Dict<V>, n: nat)
    requires n <= |d|
    ensures forall k :: k in DictKeys(d[..n]) ==> k in DictKeys(d)
  {
    forall k | k in DictKeys(d[..n])
      ensures k in DictKeys(d)
    {
      var i :| 0 <= i < n && DictKeys(d[..n])[i] == k;
      assert DictKeys(d)[i] == k;
    }
  }

  /** Auto-increment leaves every other key alone and never replaces a truthy value. */
  lemma {:induction false} AutoIncrementsKeep(saving: Row, ai: Dict<seq<string>>, rows: seq<Row>)
    ensures var out := AutoIncrements(saving, ai, rows);
            saving.Keys <= out.Keys &&
            (forall k :: k !in DictKeys(ai) ==> Get(out, k) == Get(saving, k)) &&
            (forall k :: k in saving && Truthy(saving[k]) ==> out[k] == saving[k])
    decreases |ai|
  {
    if ai != [] {
      AutoIncrementsKeep(saving, ai[..|ai| - 1], rows);
      DictKeysInit(ai);
    }
  }

  /**
   * When the table holds no negative values in those columns, every
   * auto-increment field ends up truthy.
   */
  lemma {:induction false} AutoIncrementsFill(saving: Row, ai: Dict<seq<string>>, rows: seq<Row>)
    requires forall r, k :: r in rows && k in DictKeys(ai) && Numeric(Get(r, k)).Some? ==> Numeric(Get(r, k)).value >= 0
    ensures forall k :: k in DictKeys(ai) ==> Truthy(Get(AutoIncrements(saving, ai, rows), k))
    decreases |ai|
  {
    if ai != [] {
      var n := |ai| - 1;
      DictKeysInit(ai);
      AutoIncrementsFill(saving, ai[..n], rows);
      var prev := AutoIncrements(saving, ai[..n], rows);
      NextValueAbove(rows, WhereFrom(prev, ai[n].1), ai[n].0);
    }
  }

  /**
   * The auto-increment fields are kept apart: each differs from the primary
   * key and from the other fields, and no field or primary key is one of their
   * partition columns.
   */
  predicate SeparateAutoIncrements(ai: Dict<seq<string>>, pk: string)
  {
    forall i, j :: 0 <= i < |ai| && 0 <= j < |ai| ==>
      ai[i].0 != pk && (i != j ==> ai[i].0 != ai[j].0) && ai[i].0 !in ai[j].1 && pk !in ai[j].1
  }

  /**
   * After the first `n` auto-increment fields, field `i` holds its staged value,
   * or, once its turn has come and it was unset or falsy, `MAX + 1` of its
   * partition in the table before the insert; its partition columns are untouched.
   */
  lemma {:induction false} AutoIncrementsAt(saving: Row, ai: Dict<seq<string>>, rows: seq<Row>, pk: string, i: int, n: nat)
    requires SeparateAutoIncrements(ai, pk) && 0 <= i < |ai| && n <= |ai|
    ensures var out := AutoIncrements(saving, ai[..n], rows);
            var (k, deps) := ai[i];
            (forall d :: d in deps ==> Get(out, d) == Get(saving, d)) &&
            Get(out, k) == if n <= i || Truthy(Get(saving, k)) then Get(saving, k) else VInt(NextValue(rows, WhereFrom(saving, deps), k))
    decreases n
  {
    if n == 0 {
      assert ai[..0] == [];
    } else {
      var ob := ai[..n];
      assert ob[..n - 1] == ai[..n - 1] && ob[n - 1] == ai[n - 1];
      AutoIncrementsAt(saving, ai, rows, pk, i, n - 1);
      var prev := AutoIncrements(saving, ai[..n - 1], rows);
      assert AutoIncrements(saving, ob, rows) == AutoStep(prev, ai[n - 1].0, ai[n - 1].1, rows);
      if n - 1 == i {
        assert WhereFrom(prev, ai[i].1) == WhereFrom(saving, ai[i].1);
      }
    }
  }

  /**
   * A new row whose auto-increment field `i` is unset gets the next number of
   * that field's partition, and inserting it keeps every partition of the
   * field that was numbered 1..n so numbered, whatever the other fields get.
   */
  lemma NewRowKeepsDense(rows: seq<Row>, saving: Row, ai: Dict<seq<string>>, pk: string, id: Value, i: int)
    requires SeparateAutoIncrements(ai, pk) && 0 <= i < |ai| && |ai[i].1| <= 1
    requires !Truthy(Get(saving, ai[i].0))
    ensures var (k, deps) := ai[i];
            var dep := if deps == [] then None else Some(deps[0]);
            var e := AutoIncrements(saving, ai, rows)[pk := id];
            Get(e, k) == VInt(NextValue(rows, WhereOf(dep, if dep.Some? then Get(e, dep.value) else VNull), k)) &&
            forall q :: OrderDense(Partition(rows, dep, q), k) ==> OrderDense(Partition(rows + [e], dep, q), k)
  {
    var (k, deps) := ai[i];
    var dep := if deps == [] then None else Some(deps[0]);
    AutoIncrementsAt(saving, ai, rows, pk, i, |ai|);
    assert ai[..|ai|] == ai;
    var e := AutoIncrements(saving, ai, rows)[pk := id];
    var parent := if dep.Some? then Get(e, dep.value) else VNull;
    if dep.Some? {
      assert deps == [deps[0]];
      assert Get(e, deps[0]) == Get(saving, deps[0]);
    }
    assert WhereFrom(saving, deps) == WhereOf(dep, parent);
    forall q | OrderDense(Partition(rows, dep, q), k)
      ensures OrderDense(Partition(rows + [e], dep, q), k)
    {
      if dep.None? {
        PartitionNone(rows, q);
        PartitionNone(rows, parent);
        PartitionNone(rows + [e], q);
        PartitionNone(rows + [e], parent);
        InsertKeepsDense(rows, k, dep, e);
      } else if q == parent {
        InsertKeepsDense(rows, k, dep, e);
      } else {
        PartitionConcat(rows, [e], dep, q);
        assert [e][1..] == [];
        assert Partition(rows, dep, q) + [] == Partition(rows, dep, q);
      }
    }
  }

  // ---------------------------------------------------------------------------
  // Post keys of child forms

  /** The post key of field `kk` of child set `ch`: `ch-kk-ch`, or `ch-kk-ch-id` for one row of a set. */
  function ChildKey(kk: string, ch: string, id: Option<string>): string
  {
    "ch-" + kk + "-" + ch + (if id.Some? then "-" + id.value else "")
  }

  /** `getChildrenData(data, keys, ch, id)`; `checkboxes` are the child class's checkbox fields. */
  function ChildrenData(data: Row, keys: set<string>, ch: string, id: Option<string>, checkboxes: set<string>): Row
  {
    var posted := map kk | kk in keys && ChildKey(kk, ch, id) in data :: data[ChildKey(kk, ch, id)];
    posted + map k | k in checkboxes :: if IsSet(data, ChildKey(k, ch, id)) then data[ChildKey(k, ch, id)] else VInt(0)
  }

  /** Within one child, different fields use different post keys. */
  lemma ChildKeyInjective(a: string, b: string, ch: string, id: Option<string>)
    requires ChildKey(a, ch, id) == ChildKey(b, ch, id)
    ensures a == b
  {
    var ka, kb := ChildKey(a, ch, id), ChildKey(b, ch, id);
    assert |a| == |b|;
    assert a == ka[3..3 + |a|];
    assert b == kb[3..3 + |b|];
  }

  /** The key convention is ambiguous once child names contain a dash. */
  lemma ChildKeyAmbiguous()
    ensures ChildKey("title", "a", Some("b")) == ChildKey("title", "a-b", None)
  {
  }

  /** The post data a child form with the given fields produces. */
  function PostOf(fields: seq<string>, vals: Row, ch: string, id: Option<string>): Row
    requires forall f :: f in fields ==> f in vals
    decreases |fields|
  {
    if fields == [] then map[]
    else PostOf(fields[1..], vals, ch, id)[ChildKey(fields[0], ch, id) := vals[fields[0]]]
  }

  lemma {:induction false} PostOfAt(fields: seq<string>, vals: Row, ch: string, id: Option<string>, f: string)
    requires forall g :: g in fields ==> g in vals
    ensures ChildKey(f, ch, id) in PostOf(fields, vals, ch, id) <==> f in fields
    ensures f in fields ==> PostOf(fields, vals, ch, id)[ChildKey(f, ch, id)] == vals[f]
    decreases |fields|
  {
    if fields != [] {
      PostOfAt(fields[1..], vals, ch, id, f);
      if ChildKey(f, ch, id) == ChildKey(fields[0], ch, id) {
        ChildKeyInjective(f, fields[0], ch, id);
      }
      assert fields == [fields[0]] + fields[1..];
    }
  }

  /** A child's posted fields read back as the values posted, for every data key posted. */
  lemma ChildrenDataRoundTrip(fields: seq<string>, vals: Row, keys: set<string>, ch: string, id: Option<string>)
    requires forall f :: f in fields ==> f in vals
    ensures ChildrenData(PostOf(fields, vals, ch, id), keys, ch, id, {}) == map kk | kk in keys && kk in fields :: vals[kk]
  {
    var post := PostOf(fields, vals, ch, id);
    forall kk
      ensures ChildKey(kk, ch, id) in post <==> kk in fields
      ensures kk in fields ==> post[ChildKey(kk, ch, id)] == vals[kk]
    {
      PostOfAt(fields, vals, ch, id, kk);
    }
  }

  /** An unchecked checkbox is absent from the post and reads as 0. */
  lemma UncheckedReadsZero(data: Row, keys: set<string>, ch: string, id: Option<string>, checkboxes: set<string>, k: string)
    requires k in checkboxes && !IsSet(data, ChildKey(k, ch, id))
    ensures ChildrenData(data, keys, ch, id, checkboxes)[k] == VInt(0)
  {
  }

  // ---------------------------------------------------------------------------
  // Duplicates

  /** The data `duplicate(replace)` saves into the copy. */
  function DuplicateData(data: Row, primary: string, autoIncrements: set<string>, replaceInDuplicate: Row, replace: Row): Row
  {
    (data - {primary} - autoIncrements) + replaceInDuplicate + replace
  }

  /**
   * The copy takes `replace` first, then `replaceInDuplicate`, then the
   * original's data, and never the primary key or an auto-increment field
   * unless one of the replacements names it.
   */
  lemma DuplicateDataSpec(data: Row, primary: string, ai: set<string>, rid: Row, replace: Row, k: string)
    ensures var d := DuplicateData(data, primary, ai, rid, replace);
            (k in replace ==> k in d && d[k] == replace[k]) &&
            (k !in replace && k in rid ==> k in d && d[k] == rid[k]) &&
            (k !in replace && k !in rid ==> (k in d <==> k in data && k != primary && k !in ai)) &&
            (k !in replace && k !in rid && k in d ==> d[k] == data[k])
  {
  }

  /** Without replacements, a copy's auto-increment fields are left for `save` to assign afresh. */
  lemma DuplicateRenumbers(data: Row, primary: string, ai: Dict<seq<string>>, rid: Row, replace: Row, rows: seq<Row>, k: string)
    requires k in DictKeys(ai) && k !in rid && k !in replace
    requires forall r, f :: r in rows && f in DictKeys(ai) && Numeric(Get(r, f)).Some? ==> Numeric(Get(r, f)).value >= 0
    ensures var keys := set i | 0 <= i < |ai| :: ai[i].0;
            var d := DuplicateData(data, primary, keys, rid, replace);
            Get(d, k) == VNull && Truthy(Get(AutoIncrements(d, ai, rows), k))
  {
    var keys := set i | 0 <= i < |ai| :: ai[i].0;
    var i :| 0 <= i < |ai| && DictKeys(ai)[i] == k;
    assert k in keys;
    AutoIncrementsFill(DuplicateData(data, primary, keys, rid, replace), ai, rows);
  }
}
