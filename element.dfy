/**
 * An element: one row of a table with the relationships its class declares.
 * It loads its row lazily, stages changes with `update`, writes them back
 * with `save` (a diff against the snapshot of the stored row, or an insert
 * with auto-increment values), and removes the row with `delete`, shifting
 * the order columns of its siblings down.
 */
module Elements {
  import opened Values
  import opened Database
  import opened Relationships
  import opened ChildrenCache
  import opened ElementData

  /** An element class: its name, static table, the declarations of its `init` and its `duplicableWith` overrides. */
  datatype ElementClass = ElementClass(name: string, table: Option<string>, decls: seq<Decl>, replaceInDuplicate: Row)

  /** A parent element, kept as the class and id `one(element, id)` is called with. */
  datatype ParentLink = ParentLink(element: string, id: Value)

  /** The settings an element is built with; a `table` of None stands for `false` or `null`. */
  datatype Settings = Settings(table: Option<string>, primary: string, preLoaded: bool, defaults: Row, parent: Option<ParentLink>)

  /** `$this->settings['table']` is truthy. */
  predicate HasTable(s: Settings)
  {
    s.table.Some? && Named(s.table.value)
  }

  /**
   * One entry of `children_ar`: `false` (not loaded, or a single child whose
   * link is empty), a single child resolved through the ORM or read directly,
   * or the rows of a set of children.
   */
  datatype Slot = Unloaded | SingleLink(element: string, id: Value) | SingleRow(row: Option<Row>) | Many(rows: seq<Row>)

  /** What `save` returns: the element's id, or the error raised when no table model exists. */
  datatype Outcome = Saved(id: Value) | Failed

  /**
   * What `delete` returns: false for a row that does not exist, true once the
   * row is deleted, or the error the database raises when the table does not exist.
   */
  datatype Deletion = NothingDeleted | Deleted | DeleteRaised

  /** The fields of an element that its methods change. */
  datatype ElementState = ElementState(data: Row, dbData: Row, children: map<string, Slot>, parent: Option<ParentLink>,
                         loaded: bool, existing: bool, destroyed: bool, flagSaving: bool, afterSaveCalls: nat)

  // ---------------------------------------------------------------------------
  // Loading

  /** What `load` finds: whether the row exists, the data and the snapshot. */
  datatype Fetched = Fetched(existing: bool, data: Row, dbData: Row)

  /**
   * The row `load` reads: by primary key from `rows`, or, for a pre-loaded
   * element, the data it was given when its id is a truthy number.
   */
  function Fetch(s: Settings, data: Row, dbData: Row, rows: seq<Row>): Fetched
  {
    if !s.preLoaded then
      var found := if HasTable(s) && IsSet(data, s.primary) && data[s.primary] != VBool(false)
                   then First(rows, map[s.primary := data[s.primary]]) else None;
      if found.None? then Fetched(false, data, dbData) else Fetched(true, found.value, found.value)
    else if !HasTable(s) || !IsSet(data, s.primary) || !Truthy(data[s.primary]) || !IsNumeric(data[s.primary]) then
      Fetched(false, data, dbData)
    else Fetched(true, data, data)
  }

  /**
   * An element that is not pre-loaded exists iff it has a table, a non-false
   * id, and a row with that id; it then holds that row as data and snapshot.
   * A pre-loaded element exists iff its table is set and its id is a truthy
   * number, and keeps its data. One that does not exist keeps data and snapshot.
   */
  lemma FetchSpec(s: Settings, data: Row, dbData: Row, rows: seq<Row>)
    ensures !s.preLoaded ==>
              (Fetch(s, data, dbData, rows).existing <==>
                 HasTable(s) && IsSet(data, s.primary) && data[s.primary] != VBool(false) &&
                 exists r :: r in rows && Matches(r, map[s.primary := data[s.primary]]))
    ensures var f := Fetch(s, data, dbData, rows);
            !s.preLoaded && f.existing ==> f.data in rows && Get(f.data, s.primary) == data[s.primary] && f.dbData == f.data
    ensures s.preLoaded ==>
              (Fetch(s, data, dbData, rows).existing <==>
                 HasTable(s) && IsSet(data, s.primary) && Truthy(data[s.primary]) && IsNumeric(data[s.primary]))
    ensures var f := Fetch(s, data, dbData, rows);
            s.preLoaded && f.existing ==> f.data == data && f.dbData == data
    ensures var f := Fetch(s, data, dbData, rows);
            !f.existing ==> f.data == data && f.dbData == dbData
  {
    if !s.preLoaded && HasTable(s) && IsSet(data, s.primary) && data[s.primary] != VBool(false) {
      var w := map[s.primary := data[s.primary]];
      FilterMember(rows, w, s.primary, VNull, []);
      var found := First(rows, w);
      if found.Some? {
        assert found.value in FilterWhere(rows, w);
        assert Matches(found.value, w);
      } else {
        assert forall r :: r in rows && Matches(r, w) ==> r in FilterWhere(rows, w);
      }
    }
  }

  /** `autoLoadParent`: a missing parent is linked through the declared field when that field is truthy. */
  function AutoParent(parent: Option<ParentLink>, spec: Option<ParentSpec>, data: Row): (p: Option<ParentLink>)
    ensures parent.Some? ==> p == parent
    ensures parent.None? ==> (p.Some? <==> spec.Some? && spec.value.field in data && Truthy(data[spec.value.field]))
    ensures parent.None? && p.Some? ==> p.value == ParentLink(spec.value.element, data[spec.value.field])
  {
    if parent.None? && spec.Some? && spec.value.field in data && Truthy(data[spec.value.field])
    then Some(ParentLink(spec.value.element, data[spec.value.field]))
    else parent
  }

  // ---------------------------------------------------------------------------
  // initChildren

  /** The slots `initChildren` leaves: every declared relationship gets one, existing slots are kept. */
  function InitSlots(slots: map<string, Slot>, children: Dict<Relation>): map<string, Slot>
    decreases |children|
  {
    if children == [] then slots
    else
      var prev := InitSlots(slots, children[..|children| - 1]);
      var k := children[|children| - 1].0;
      if k in prev then prev else prev[k := Unloaded]
  }

  lemma {:induction false} InitSlotsSpec(slots: map<string, Slot>, children: Dict<Relation>)
    ensures var out := InitSlots(slots, children);
            (forall k :: k in out <==> k in slots || k in DictKeys(children)) &&
            (forall k :: k in slots ==> out[k] == slots[k]) &&
            (forall k :: k in out && k !in slots ==> out[k] == Unloaded)
    decreases |children|
  {
    if children != [] {
      InitSlotsSpec(slots, children[..|children| - 1]);
      DictKeysInit(children);
    }
  }

  /** The bucket and parent id `initChildren` registers for one relationship, if any. */
  function Registration(child: Relation, data: Row): Option<(string, string, Value)>
  {
    if child.relType == Multiple && Named(child.table) && IsSet(data, child.parentField) then
      match child.assoc
      case Some(a) => Some((a.table, a.parent, data[child.parentField]))
      case None => Some((child.table, child.field, data[child.parentField]))
    else None
  }

  /** The buckets after `initChildren` registered the relationships in declaration order. */
  function RegisterAll(bs: Buckets, children: Dict<Relation>, data: Row): Buckets
    decreases |children|
  {
    if children == [] then bs
    else
      var prev := RegisterAll(bs, children[..|children| - 1], data);
      match Registration(children[|children| - 1].1, data)
      case None => prev
      case Some(r) => RegisterIn(prev, r.0, r.1, r.2)
  }

  /** Registering never drops an id from any bucket, and the registered id is in its bucket. */
  lemma RegisterInKeeps(bs: Buckets, t: string, f: string, id: Value, u: string, g: string, x: Value)
    ensures var r := RegisterIn(bs, t, f, id);
            t in r && f in r[t] && id in r[t][f].ids &&
            (u in bs && g in bs[u] && x in bs[u][g].ids ==> u in r && g in r[u] && x in r[u][g].ids)
  {
  }

  /** After `initChildren`, every parent id one of the relationships registers is in its bucket. */
  lemma {:induction false} RegisterAllRegisters(bs: Buckets, children: Dict<Relation>, data: Row, i: int)
    requires 0 <= i < |children| && Registration(children[i].1, data).Some?
    ensures var r := Registration(children[i].1, data).value;
            var out := RegisterAll(bs, children, data);
            r.0 in out && r.1 in out[r.0] && r.2 in out[r.0][r.1].ids
    decreases |children|
  {
    var n := |children| - 1;
    var prev := RegisterAll(bs, children[..n], data);
    var r := Registration(children[i].1, data).value;
    if i < n {
      assert children[..n][i] == children[i];
      RegisterAllRegisters(bs, children[..n], data, i);
      match Registration(children[n].1, data)
      case None =>
      case Some(q) => RegisterInKeeps(prev, q.0, q.1, q.2, r.0, r.1, r.2);
    } else {
      RegisterInKeeps(prev, r.0, r.1, r.2, r.0, r.1, r.2);
    }
  }

  /** Every declared relationship has its slot. */
  predicate SlotsCover(children: Dict<Relation>, slots: map<string, Slot>)
  {
    forall i :: 0 <= i < |children| ==> children[i].0 in slots
  }

  /** The loop of `initChildren` over the declared relationships. */
  method InitChildrenOf(clc: ChildrenLoadingCache, children: Dict<Relation>, data: Row, slots: map<string, Slot>)
    returns (out: map<string, Slot>)
    requires clc.Valid()
    modifies clc
    ensures clc.Valid()
    ensures out == InitSlots(slots, children)
    ensures SlotsCover(children, out)
    ensures clc.buckets == RegisterAll(old(clc.buckets), children, data)
  {
    out := slots;
    var i := 0;
    while i < |children|
      invariant 0 <= i <= |children|
      invariant clc.Valid()
      invariant out == InitSlots(slots, children[..i])
      invariant clc.buckets == RegisterAll(old(clc.buckets), children[..i], data)
    {
      var (k, child) := children[i];
      assert children[..i + 1][..i] == children[..i];
      if k !in out {
        out := out[k := Unloaded];
      }
      if child.relType == Multiple && Named(child.table) && IsSet(data, child.parentField) {
        if child.assoc.Some? {
          var _ := clc.RegisterChildrenLoading(child.assoc.value.table, child.assoc.value.parent, data[child.parentField]);
        } else {
          var _ := clc.RegisterChildrenLoading(child.table, child.field, data[child.parentField]);
        }
      }
      i := i + 1;
    }
    assert children[..i] == children;
    InitSlotsSpec(slots, children);
    assert forall i :: 0 <= i < |children| ==> children[i].0 in DictKeys(children);
  }

  // ---------------------------------------------------------------------------
  // Children

  /** The table, the link column and the where-array a set of children is read with. */
  function ChildQuery(child: Relation, data: Row): (string, string, Where)
  {
    match child.assoc
    case Some(a) => (a.table, a.parent, a.where[a.parent := Get(data, child.parentField)])
    case None => (child.table, child.field, child.where[child.field := Get(data, child.parentField)])
  }

  /** `loadFromChildrenLoadingCache(table, field, p)` on the buckets `bs`: nothing for an unknown bucket. */
  function CachedChildren(bs: Buckets, t: string, f: string, p: Value, rows: seq<Row>): seq<Row>
  {
    if t in bs && f in bs[t] then Children(LoadBucket(bs[t][f], f, rows), f, p) else []
  }

  /** The buckets after that call. */
  function CacheAfter(bs: Buckets, t: string, f: string, rows: seq<Row>): Buckets
  {
    if t in bs && f in bs[t] then bs[t := bs[t][f := LoadBucket(bs[t][f], f, rows)]] else bs
  }

  /**
   * A parent registered in a bucket that agrees with the table reads from
   * the cache exactly the rows a direct `select_all(table, [field => p])` returns.
   */
  lemma CacheAgreesWithDirectQuery(bs: Buckets, t: string, f: string, p: Value, rows: seq<Row>)
    requires t in bs && f in bs[t] && Consistent(bs[t][f], f, rows) && KeyedTable(rows) && p in bs[t][f].ids
    ensures CachedChildren(bs, t, f, p, rows) == FilterWhere(rows, map[f := p])
  {
    LoadedChildrenAreDirect(bs[t][f], f, rows, p);
    FilterWhereSingle(rows, f, p);
  }

  /** What `save` writes: the diff for an existing row, the insert for a new one. */
  function SaveOutcome(existing: bool, st: SaveState, shape: Shape, pk: string, saving: Row): SaveState
  {
    if existing then ExistingSave(st, shape.orderBy, pk, saving) else NewSave(st, shape.autoIncrement, pk, saving)
  }

  /** The checks `loadChildren` makes before reading: a truthy table and link field. */
  predicate ChildLoadable(child: Relation, data: Row)
  {
    Named(child.table) &&
    (child.relType == Single ==> Named(child.field) && child.field in data) &&
    (child.relType == Multiple && child.assoc.None? ==> Named(child.field))
  }

  // ---------------------------------------------------------------------------
  // The element

  class Element {
    const cls: ElementClass
    const tableOf: string -> string
    /** The declarations of `init`. */
    const shape: WellFormedShape
    const settings: Settings
    const db: Db
    const clc: ChildrenLoadingCache
    const clock: Clock

    var dataArr: Row
    var dbDataArr: Row
    var childrenAr: map<string, Slot>
    var parent: Option<ParentLink>
    var loaded: bool
    var existing: bool
    var destroyed: bool
    /** `_flagSaving`, and how many times `afterSave` ran. */
    var flagSaving: bool
    var afterSaveCalls: nat

    /** The connections are consistent, and an element that exists has a table. */
    ghost predicate Linked()
      reads this, db, clc
    {
      db.Valid() && clc.Valid() && clc.db == db &&
      (existing ==> settings.table.Some?)
    }

    /** Every declared relationship has its slot. */
    ghost predicate Valid()
      reads this, db, clc
    {
      Linked() && SlotsCover(shape.children, childrenAr)
    }

    ghost function State(): ElementState
      reads this
    {
      ElementState(dataArr, dbDataArr, childrenAr, parent, loaded, existing, destroyed, flagSaving, afterSaveCalls)
    }

    /** The rows of the element's table. */
    function TableRows(): seq<Row>
      reads db
    {
      if settings.table.Some? then db.Rows(settings.table.value) else []
    }

    /** The data once `load` filled the missing columns of the table model, if there is one. */
    function Filled(data: Row): Row
    {
      match db.GetTable(settings.table)
      case None => data
      case Some(tm) => FillDefaults(data, tm, settings.defaults, clock)
    }

    /** `new Element(data, settings)`: runs `init` and `initChildren`, and keeps a parent of the declared class. */
    constructor (cls: ElementClass, tableOf: string -> string, data: Row, settings: Settings, db: Db, clc: ChildrenLoadingCache, clock: Clock)
      requires db.Valid() && clc.Valid() && clc.db == db
      modifies clc
      ensures Valid()
      ensures this.cls == cls && this.tableOf == tableOf && this.settings == settings
      ensures this.db == db && this.clc == clc && this.clock == clock
      ensures shape == Init(cls.decls, cls.name, tableOf)
      ensures dataArr == data && dbDataArr == map[] && !loaded && !existing && !destroyed && !flagSaving && afterSaveCalls == 0
      ensures childrenAr == InitSlots(map[], shape.children)
      ensures clc.buckets == RegisterAll(old(clc.buckets), shape.children, data)
      ensures parent == if settings.parent.Some? && (shape.parent.None? || settings.parent.value.element == shape.parent.value.element)
                        then settings.parent else None
    {
      InitWellFormed(cls.decls, cls.name, tableOf);
      var shape := Init(cls.decls, cls.name, tableOf);
      var slots := InitChildrenOf(clc, shape.children, data, map[]);
      this.cls := cls;
      this.tableOf := tableOf;
      this.shape := shape;
      this.settings := settings;
      this.db := db;
      this.clc := clc;
      this.clock := clock;
      dataArr := data;
      dbDataArr := map[];
      childrenAr := slots;
      parent := if settings.parent.Some? && (shape.parent.None? || settings.parent.value.element == shape.parent.value.element)
                then settings.parent else None;
      loaded := false;
      existing := false;
      destroyed := false;
      flagSaving := false;
      afterSaveCalls := 0;
    }

    /** `initChildren`: a slot for every relationship, and a registration with the cache for each set of children it can link. */
    method InitChildren()
      requires Linked()
      modifies this`childrenAr, clc
      ensures Valid()
      ensures childrenAr == InitSlots(old(childrenAr), shape.children)
      ensures clc.buckets == RegisterAll(old(clc.buckets), shape.children, dataArr)
    {
      childrenAr := InitChildrenOf(clc, shape.children, dataArr, childrenAr);
    }

    /** `autoLoadParent`. */
    method AutoLoadParent()
      modifies this`parent
      ensures parent == AutoParent(old(parent), shape.parent, dataArr)
    {
      var spec := shape.parent;
      if parent.None? && spec.Some? {
        if spec.value.field in dataArr && Truthy(dataArr[spec.value.field]) {
          parent := Some(ParentLink(spec.value.element, dataArr[spec.value.field]));
        }
      }
    }

    /** The loop of `load` that gives every missing column of the table model its default. */
    method FillMissing(tm: TableModel)
      modifies this`dataArr
      ensures dataArr == FillDefaults(old(dataArr), tm, settings.defaults, clock)
    {
      ghost var d0 := dataArr;
      var columns := tm.Keys;
      while columns != {}
        invariant columns <= tm.Keys
        invariant dataArr == map k | k in d0.Keys + (tm.Keys - columns) ::
                               if k in d0 then d0[k] else DefaultFor(k, tm[k], settings.defaults, clock)
        decreases columns
      {
        var ck :| ck in columns;
        if ck !in dataArr {
          dataArr := dataArr[ck := DefaultFor(ck, tm[ck], settings.defaults, clock)];
        }
        columns := columns - {ck};
      }
    }

    /** The part of `load` that reads the row, or trusts the pre-loaded data. */
    method FetchRow()
      modifies this`existing, this`dataArr, this`dbDataArr
      ensures var f := Fetch(settings, old(dataArr), old(dbDataArr), TableRows());
              existing == f.existing && dataArr == f.data && dbDataArr == f.dbData
    {
      var pk := settings.primary;
      existing := true;
      if !settings.preLoaded {
        var temp: Option<Row> := None;
        if HasTable(settings) && IsSet(dataArr, pk) && dataArr[pk] != VBool(false) {
          temp := db.Select(settings.table.value, map[pk := dataArr[pk]]);
        }
        if temp.None? {
          existing := false;
        } else {
          dataArr := temp.value;
          dbDataArr := temp.value;
        }
      } else {
        if !HasTable(settings) || !IsSet(dataArr, pk) || !Truthy(dataArr[pk]) || !IsNumeric(dataArr[pk]) {
          existing := false;
        } else {
          dbDataArr := dataArr;
        }
      }
    }

    /**
     * `load`: once only. Reads the row (or trusts pre-loaded data), registers
     * the children, fills the missing columns and links the parent.
     */
    method Load()
      requires Valid()
      modifies this, clc
      ensures Valid() && loaded
      ensures old(loaded) ==> State() == old(State()) && clc.buckets == old(clc.buckets)
      ensures !old(loaded) ==>
                var f := Fetch(settings, old(dataArr), old(dbDataArr), TableRows());
                existing == f.existing && dbDataArr == f.dbData && dataArr == Filled(f.data) &&
                childrenAr == InitSlots(old(childrenAr), shape.children) &&
                clc.buckets == RegisterAll(old(clc.buckets), shape.children, f.data) &&
                parent == AutoParent(old(parent), shape.parent, dataArr) &&
                destroyed == old(destroyed) && flagSaving == old(flagSaving) && afterSaveCalls == old(afterSaveCalls)
    {
      if loaded {
        return;
      }
      FetchRow();
      FinishLoad();
    }

    /** The rest of `load`, once the row is read: children registered, missing columns filled, parent linked. */
    method FinishLoad()
      requires Linked()
      modifies this`childrenAr, this`dataArr, this`parent, this`loaded, clc
      ensures Valid() && loaded
      ensures dataArr == Filled(old(dataArr))
      ensures childrenAr == InitSlots(old(childrenAr), shape.children)
      ensures clc.buckets == RegisterAll(old(clc.buckets), shape.children, old(dataArr))
      ensures parent == AutoParent(old(parent), shape.parent, dataArr)
    {
      InitChildren();
      var tm := db.GetTable(settings.table);
      if tm.Some? {
        FillMissing(tm.value);
      }
      AutoLoadParent();
      loaded := true;
    }

    /** `$element[$k]`: loads, then reads the value (null when unset). */
    method OffsetGet(k: string) returns (v: Value)
      requires Valid()
      modifies this, clc
      ensures Valid() && loaded
      ensures v == Get(dataArr, k)
      ensures old(loaded) ==> State() == old(State()) && clc.buckets == old(clc.buckets)
    {
      Load();
      v := if IsSet(dataArr, k) then dataArr[k] else VNull;
    }

    /** `exists`: loads, then tells whether the element is a row of its table. */
    method Exists() returns (b: bool)
      requires Valid()
      modifies this, clc
      ensures Valid() && loaded && b == existing
      ensures old(loaded) ==> existing == old(existing)
      ensures !old(loaded) ==>
                var f := Fetch(settings, old(dataArr), old(dbDataArr), TableRows());
                existing == f.existing && dbDataArr == f.dbData
    {
      Load();
      b := existing;
    }

    /** `getData`: the current data without the primary key. */
    function GetData(): (d: Row)
      reads this`dataArr
      ensures settings.primary !in d && d.Keys <= dataArr.Keys
      ensures forall k :: k in dataArr && k != settings.primary ==> k in d && d[k] == dataArr[k]
    {
      WithoutPrimary(dataArr, settings.primary)
    }

    /** The table `getDataKeys(ch)` reads: the element's own, or the child's (its bridge table for a many-to-many). */
    function DataTable(ch: Option<string>): Option<string>
    {
      match ch
      case None => settings.table
      case Some(name) =>
        match Lookup(shape.children, name)
        case None => None
        case Some(child) => if child.assoc.Some? then Some(child.assoc.value.table) else Some(child.table)
    }

    /** `getDataKeys(ch)`: the columns of that table except the element's primary key, or false without a table model. */
    function GetDataKeys(ch: Option<string>): (keys: Option<set<string>>)
      ensures keys.Some? <==> db.GetTable(DataTable(ch)).Some?
      ensures keys.Some? ==> keys.value == db.GetTable(DataTable(ch)).value.Keys - {settings.primary}
    {
      DataKeys(db.GetTable(DataTable(ch)), settings.primary)
    }

    // -------------------------------------------------------------------------
    // update

    /**
     * `update(data)` on a loaded element: stages the data keys, coerced, into
     * the data and returns them; without a table model it raises an error.
     */
    method UpdateLoaded(data: Row) returns (saving: Option<Row>)
      requires Valid() && loaded
      modifies this`dataArr
      ensures Valid()
      ensures var tm := db.GetTable(settings.table);
              (saving.None? <==> tm.None?) &&
              (tm.None? ==> dataArr == old(dataArr)) &&
              (tm.Some? ==> saving.value == Staged(tm.value, tm.value.Keys - {settings.primary}, data) &&
                            dataArr == old(dataArr) + saving.value)
    {
      var tm := db.GetTable(settings.table);
      var keys := GetDataKeys(None);
      if tm.None? || keys.None? {
        return None;
      }
      var staged := StageData(tm.value, keys.value, data);
      dataArr := dataArr + staged;
      saving := Some(staged);
    }

    /** The loop of `update` over the given data: each data key is coerced and staged. */
    static method StageData(tm: TableModel, keys: set<string>, data: Row) returns (staged: Row)
      requires keys <= tm.Keys
      ensures staged == Staged(tm, keys, data)
    {
      staged := map[];
      var pending := data.Keys;
      while pending != {}
        invariant pending <= data.Keys
        invariant staged == map k | k in data.Keys * keys && k !in pending :: Coerce(tm[k], data[k])
        decreases pending
      {
        var k :| k in pending;
        if k in keys {
          var v := if tm[k].nullable && data[k] == VStr("") then VNull else data[k];
          staged := staged[k := v];
        }
        pending := pending - {k};
      }
    }

    /** `update(data)`: loads, then stages. */
    method Update(data: Row) returns (saving: Option<Row>)
      requires Valid()
      modifies this, clc
      ensures Valid() && loaded
      ensures var tm := db.GetTable(settings.table);
              (saving.None? <==> tm.None?) &&
              (tm.Some? ==> saving.value == Staged(tm.value, tm.value.Keys - {settings.primary}, data))
    {
      Load();
      saving := UpdateLoaded(data);
    }

    // -------------------------------------------------------------------------
    // save

    /** `shiftOrder(field, oldOrder, parent)`: false for a field that is not an ordering field. */
    method ShiftOrderField(field: string, oldOrder: Value, parentValue: Value) returns (ok: bool)
      requires db.Valid() && settings.table.Some? && settings.table.value in db.tables
      modifies db
      ensures db.Valid()
      ensures db.depth == old(db.depth) && db.snapshot == old(db.snapshot)
      ensures ok <==> Lookup(shape.orderBy, field).Some?
      ensures ok ==> db.tables == old(db.tables)[settings.table.value :=
                        ShiftDown(old(db.Rows(settings.table.value)), field, Dep(Lookup(shape.orderBy, field).value), parentValue, oldOrder)]
      ensures !ok ==> db.tables == old(db.tables)
    {
      var opt := Lookup(shape.orderBy, field);
      if opt.None? {
        return false;
      }
      if Dep(opt.value).Some? {
        db.ShiftOrder(settings.table.value, field, opt.value, parentValue, oldOrder);
      } else {
        db.ShiftOrder(settings.table.value, field, None, parentValue, oldOrder);
      }
      return true;
    }

    /** The loop of `save` that collects `real_save`. */
    method RealSave(saving: Row) returns (realSave: Row)
      ensures realSave == Diff(saving, dbDataArr)
    {
      realSave := map[];
      var pending := saving.Keys;
      while pending != {}
        invariant pending <= saving.Keys
        invariant realSave == map k | k in saving && k !in pending && Changed(k, saving[k], dbDataArr) :: saving[k]
        decreases pending
      {
        var k :| k in pending;
        if k !in dbDataArr || k == ZkVersion || Quoted(dbDataArr[k]) != Quoted(saving[k]) {
          realSave := realSave[k := saving[k]];
        }
        pending := pending - {k};
      }
    }

    /** The loop of `save` over the ordering fields: a row changing partition leaves the old one and goes to the end of the new one. */
    method MoveOrders(realSave: Row) returns (moved: Row)
      requires db.Valid() && settings.table.Some? && settings.table.value in db.tables
      modifies db
      ensures db.Valid()
      ensures db.depth == old(db.depth) && db.snapshot == old(db.snapshot)
      ensures var m := ApplyMoves(old(db.Rows(settings.table.value)), shape.orderBy, realSave, dbDataArr);
              moved == m.realSave && db.tables == old(db.tables)[settings.table.value := m.rows]
    {
      var t := settings.table.value;
      ghost var rows0 := db.Rows(t);
      assert old(db.tables)[t := rows0] == old(db.tables);
      assert shape.orderBy[..0] == [];
      moved := realSave;
      var i := 0;
      while i < |shape.orderBy|
        invariant 0 <= i <= |shape.orderBy|
        invariant db.Valid() && t in db.tables
        invariant db.depth == old(db.depth) && db.snapshot == old(db.snapshot)
        invariant moved == ApplyMoves(rows0, shape.orderBy[..i], realSave, dbDataArr).realSave
        invariant db.tables == old(db.tables)[t := ApplyMoves(rows0, shape.orderBy[..i], realSave, dbDataArr).rows]
      {
        ApplyMovesStep(rows0, shape.orderBy, i, realSave, dbDataArr);
        moved := MoveOne(i, moved);
        i := i + 1;
      }
      assert shape.orderBy[..i] == shape.orderBy;
    }

    /** One pass of that loop, for the ordering field `i`. */
    method MoveOne(i: int, realSave: Row) returns (moved: Row)
      requires db.Valid() && settings.table.Some? && settings.table.value in db.tables
      requires 0 <= i < |shape.orderBy|
      modifies db
      ensures db.Valid()
      ensures db.depth == old(db.depth) && db.snapshot == old(db.snapshot)
      ensures var t := settings.table.value;
              var m := MoveStep(Moved(old(db.Rows(t)), realSave), shape.orderBy[i].0, shape.orderBy[i].1, dbDataArr);
              moved == m.realSave && db.tables == old(db.tables)[t := m.rows]
    {
      var t := settings.table.value;
      var (k, dep) := shape.orderBy[i];
      moved := realSave;
      if Dep(dep).Some? && IsSet(moved, dep.value) {
        var d := dep.value;
        LookupAt(shape.orderBy, i);
        var _ := ShiftOrderField(k, Get(dbDataArr, k), Get(dbDataArr, d));
        var n := db.NextOf(t, map[d := moved[d]], k);
        moved := moved[k := VInt(n)];
      } else {
        assert old(db.tables)[t := old(db.Rows(t))] == old(db.tables);
      }
    }

    /**
     * `save` of an existing row: the diff against the snapshot is written,
     * after the moves; data and snapshot both take the values written.
     */
    method SaveExisting(saving: Row)
      requires Valid() && loaded && existing && db.GetTable(settings.table).Some?
      modifies this`dataArr, this`dbDataArr, db
      ensures Valid()
      ensures db.depth == old(db.depth) && db.snapshot == old(db.snapshot)
      ensures var t := settings.table.value;
              var st := ExistingSave(SaveState(old(db.Rows(t)), old(dataArr), old(dbDataArr)), shape.orderBy, settings.primary, saving);
              db.tables == old(db.tables)[t := st.rows] && dataArr == st.data && dbDataArr == st.dbData
      ensures State() == old(State()).(data := dataArr, dbData := dbDataArr)
    {
      var t := settings.table.value;
      var realSave := RealSave(saving);
      if realSave == map[] {
        assert old(db.tables)[t := old(db.Rows(t))] == old(db.tables);
        return;
      }
      WriteDiff(saving, realSave);
    }

    /** The write of `save` once the diff is known not to be empty: the moves, then the update. */
    method WriteDiff(saving: Row, realSave: Row)
      requires db.Valid() && settings.table.Some? && settings.table.value in db.tables
      requires realSave == Diff(saving, dbDataArr) && realSave != map[]
      modifies this`dataArr, this`dbDataArr, db
      ensures db.Valid() && db.tables.Keys == old(db.tables).Keys
      ensures db.depth == old(db.depth) && db.snapshot == old(db.snapshot)
      ensures var t := settings.table.value;
              var st := ExistingSave(SaveState(old(db.Rows(t)), old(dataArr), old(dbDataArr)), shape.orderBy, settings.primary, saving);
              db.tables == old(db.tables)[t := st.rows] && dataArr == st.data && dbDataArr == st.dbData
    {
      var t := settings.table.value;
      var moved := MoveOrders(realSave);
      db.Update(t, map[settings.primary := Get(dataArr, settings.primary)], moved);
      dbDataArr := dbDataArr + moved;
      dataArr := dataArr + moved;
    }

    /** The loop of `save` that builds the where-array of an auto-increment field. */
    static method WhereOfDeps(saving: Row, deps: seq<string>) returns (where: Where)
      ensures where == WhereFrom(saving, deps)
    {
      where := map[];
      var j := 0;
      while j < |deps|
        invariant 0 <= j <= |deps|
        invariant where == map d | d in deps[..j] :: Get(saving, d)
      {
        assert deps[..j + 1] == deps[..j] + [deps[j]];
        where := where[deps[j] := Get(saving, deps[j])];
        j := j + 1;
      }
      assert deps[..j] == deps;
    }

    /**
     * `save` of a new row: unset auto-increment fields get the next value of
     * their partition, the row is inserted, the element exists with the
     * returned id, and its parent and children are linked to it.
     */
    method SaveNew(saving: Row)
      requires Valid() && loaded && !existing && db.GetTable(settings.table).Some?
      requires forall k :: k in saving ==> k in dataArr && dataArr[k] == saving[k]
      modifies this, db, clc
      ensures Valid() && existing && loaded
      ensures db.depth == old(db.depth) && db.snapshot == old(db.snapshot)
      ensures var t := settings.table.value;
              var st := NewSave(SaveState(old(db.Rows(t)), old(dataArr), old(dbDataArr)), shape.autoIncrement, settings.primary, saving);
              db.tables == old(db.tables)[t := st.rows] && dataArr == st.data && dbDataArr == st.dbData
      ensures parent == AutoParent(old(parent), shape.parent, dataArr)
      ensures childrenAr == InitSlots(old(childrenAr), shape.children)
      ensures clc.buckets == RegisterAll(old(clc.buckets), shape.children, dataArr)
      ensures destroyed == old(destroyed) && flagSaving == old(flagSaving) && afterSaveCalls == old(afterSaveCalls)
    {
      InsertRow(saving);
      AutoLoadParent();
      InitChildren();
    }

    /** The insert of `save`: auto-increment values, the row, and the returned id in data and snapshot. */
    method InsertRow(saving: Row)
      requires db.Valid() && db.GetTable(settings.table).Some?
      requires forall k :: k in saving ==> k in dataArr && dataArr[k] == saving[k]
      modifies this`dataArr, this`dbDataArr, this`existing, db
      ensures db.Valid() && existing
      ensures db.depth == old(db.depth) && db.snapshot == old(db.snapshot)
      ensures var t := settings.table.value;
              var st := NewSave(SaveState(old(db.Rows(t)), old(dataArr), old(dbDataArr)), shape.autoIncrement, settings.primary, saving);
              db.tables == old(db.tables)[t := st.rows] && dataArr == st.data && dbDataArr == st.dbData
    {
      var t := settings.table.value;
      var pk := settings.primary;
      assert dataArr + saving == dataArr;
      var s := AutoIncrementFields(saving);
      dataArr := dataArr + s;
      var id := db.Insert(t, pk, s);
      existing := true;
      dataArr := dataArr[pk := id];
      dbDataArr := s[pk := id];
    }

    /** The loop of `save` that numbers the unset auto-increment fields of a new row. */
    method AutoIncrementFields(saving: Row) returns (s: Row)
      requires settings.table.Some?
      ensures s == AutoIncrements(saving, shape.autoIncrement, TableRows())
    {
      var ai := shape.autoIncrement;
      assert ai[..0] == [];
      s := saving;
      var i := 0;
      while i < |ai|
        invariant 0 <= i <= |ai|
        invariant s == AutoIncrements(saving, ai[..i], TableRows())
      {
        var (k, deps) := ai[i];
        assert ai[..i + 1][..i] == ai[..i];
        if !Truthy(Get(s, k)) {
          var where := WhereOfDeps(s, deps);
          var n := db.NextOf(settings.table.value, where, k);
          s := s[k := VInt(n)];
        }
        i := i + 1;
      }
      assert ai[..i] == ai;
    }

    /**
     * The `_flagSaving` guard around `afterSave`; `reentries` is how many
     * times the hook re-enters `save` and reaches the guard again.
     */
    method AfterSaveGuard(reentries: nat)
      modifies this`flagSaving, this`afterSaveCalls
      ensures flagSaving == old(flagSaving)
      ensures afterSaveCalls == old(afterSaveCalls) + (if old(flagSaving) then 0 else 1)
      decreases reentries
    {
      if !flagSaving {
        flagSaving := true;
        afterSaveCalls := afterSaveCalls + 1;
        var i := 0;
        while i < reentries
          invariant flagSaving && afterSaveCalls == old(afterSaveCalls) + 1
        {
          AfterSaveGuard(0);
          i := i + 1;
        }
        flagSaving := false;
      }
    }

    /** The data `save` stages: the given data, or the element's own without the primary key. */
    static function SaveInput(data: Option<Row>, dataArr: Row, primary: string): Row
    {
      if data.Some? then data.value else WithoutPrimary(dataArr, primary)
    }

    /**
     * `save(data)` on a loaded element, inside a transaction: the diff is
     * written for an existing row, the row is inserted for a new one, and
     * `afterSave` runs once; the error of a missing table model rolls back.
     */
    method SaveLoaded(data: Option<Row>, reentries: nat) returns (out: Outcome)
      requires Valid() && loaded
      modifies this, db, clc
      ensures Valid() && loaded
      ensures out.Failed? <==> db.GetTable(settings.table).None?
      ensures out.Failed? ==> State() == old(State()) && clc.buckets == old(clc.buckets)
      ensures out.Failed? && !old(existing) && data.Some? ==>
                db.tables == old(db.tables) && db.depth == old(db.depth) && db.snapshot == old(db.snapshot)
      ensures out.Failed? && (old(existing) || data.None?) ==>
                db.tables == (if old(db.depth) == 0 then old(db.tables) else old(db.snapshot)) && db.depth == 0
      ensures out.Saved? ==>
                existing && out == Saved(Get(dataArr, settings.primary)) && db.depth == old(db.depth) &&
                db.snapshot == (if old(db.depth) == 0 then old(db.tables) else old(db.snapshot)) &&
                flagSaving == old(flagSaving) && afterSaveCalls == old(afterSaveCalls) + (if old(flagSaving) then 0 else 1)
      ensures out.Saved? && old(existing) ==>
                var tm := db.GetTable(settings.table).value;
                var t := settings.table.value;
                var saving := Staged(tm, tm.Keys - {settings.primary}, SaveInput(data, old(dataArr), settings.primary));
                var st := ExistingSave(SaveState(old(db.Rows(t)), old(dataArr) + saving, old(dbDataArr)), shape.orderBy, settings.primary, saving);
                db.tables == old(db.tables)[t := st.rows] && dataArr == st.data && dbDataArr == st.dbData
      ensures out.Saved? && !old(existing) ==>
                var tm := db.GetTable(settings.table).value;
                var t := settings.table.value;
                var keys := tm.Keys - {settings.primary};
                var d1 := if data.Some? then old(dataArr) + Staged(tm, keys, data.value) else old(dataArr);
                var saving := Staged(tm, keys, WithoutPrimary(d1, settings.primary));
                var st := NewSave(SaveState(old(db.Rows(t)), d1 + saving, old(dbDataArr)), shape.autoIncrement, settings.primary, saving);
                db.tables == old(db.tables)[t := st.rows] && dataArr == st.data && dbDataArr == st.dbData &&
                clc.buckets == RegisterAll(old(clc.buckets), shape.children, dataArr)
    {
      var input := data;
      if !existing && data.Some? {
        var first := UpdateLoaded(data.value);
        if first.None? {
          return Failed;
        }
        input := None;
      }
      out := SaveInTransaction(SaveInput(input, dataArr, settings.primary), reentries);
    }

    /** The transaction of `save`: stage, write, run the hook, commit; roll back on the error of a missing table model. */
    method SaveInTransaction(staging: Row, reentries: nat) returns (out: Outcome)
      requires Valid() && loaded
      modifies this, db, clc
      ensures Valid() && loaded
      ensures out.Failed? <==> db.GetTable(settings.table).None?
      ensures out.Failed? ==>
                State() == old(State()) && clc.buckets == old(clc.buckets) &&
                db.tables == (if old(db.depth) == 0 then old(db.tables) else old(db.snapshot)) && db.depth == 0
      ensures out.Saved? ==>
                existing && out == Saved(Get(dataArr, settings.primary)) && db.depth == old(db.depth) &&
                db.snapshot == (if old(db.depth) == 0 then old(db.tables) else old(db.snapshot)) &&
                flagSaving == old(flagSaving) && afterSaveCalls == old(afterSaveCalls) + (if old(flagSaving) then 0 else 1)
      ensures out.Saved? ==>
                var tm := db.GetTable(settings.table).value;
                var t := settings.table.value;
                var saving := Staged(tm, tm.Keys - {settings.primary}, staging);
                var st := SaveOutcome(old(existing), SaveState(old(db.Rows(t)), old(dataArr) + saving, old(dbDataArr)), shape, settings.primary, saving);
                db.tables == old(db.tables)[t := st.rows] && dataArr == st.data && dbDataArr == st.dbData
      ensures out.Saved? ==> clc.buckets == if old(existing) then old(clc.buckets) else RegisterAll(old(clc.buckets), shape.children, dataArr)
    {
      db.BeginTransaction();
      var saving := UpdateLoaded(staging);
      if saving.None? {
        db.RollBack();
        return Failed;
      }
      out := WriteAndCommit(saving.value, reentries);
    }

    /** The end of `save`'s transaction: the write, `afterSave` behind its guard, the commit. */
    method WriteAndCommit(saving: Row, reentries: nat) returns (out: Outcome)
      requires Valid() && loaded && db.GetTable(settings.table).Some? && db.depth > 0
      requires forall k :: k in saving ==> k in dataArr && dataArr[k] == saving[k]
      modifies this, db, clc
      ensures Valid() && loaded && existing
      ensures out == Saved(Get(dataArr, settings.primary)) && db.depth == old(db.depth) - 1 && db.snapshot == old(db.snapshot)
      ensures flagSaving == old(flagSaving) && afterSaveCalls == old(afterSaveCalls) + (if old(flagSaving) then 0 else 1)
      ensures var t := settings.table.value;
              var st := SaveOutcome(old(existing), SaveState(old(db.Rows(t)), old(dataArr), old(dbDataArr)), shape, settings.primary, saving);
              db.tables == old(db.tables)[t := st.rows] && dataArr == st.data && dbDataArr == st.dbData
      ensures clc.buckets == if old(existing) then old(clc.buckets) else RegisterAll(old(clc.buckets), shape.children, dataArr)
    {
      WriteSaving(saving);
      var id := Get(dataArr, settings.primary);
      AfterSaveGuard(reentries);
      db.Commit();
      out := Saved(id);
    }

    /** The branch of `save` on whether the row exists. */
    method WriteSaving(saving: Row)
      requires Valid() && loaded && db.GetTable(settings.table).Some?
      requires forall k :: k in saving ==> k in dataArr && dataArr[k] == saving[k]
      modifies this, db, clc
      ensures Valid() && loaded && existing
      ensures db.depth == old(db.depth) && db.snapshot == old(db.snapshot)
      ensures flagSaving == old(flagSaving) && afterSaveCalls == old(afterSaveCalls)
      ensures var t := settings.table.value;
              var st := SaveOutcome(old(existing), SaveState(old(db.Rows(t)), old(dataArr), old(dbDataArr)), shape, settings.primary, saving);
              db.tables == old(db.tables)[t := st.rows] && dataArr == st.data && dbDataArr == st.dbData
      ensures clc.buckets == if old(existing) then old(clc.buckets) else RegisterAll(old(clc.buckets), shape.children, dataArr)
    {
      if existing {
        SaveExisting(saving);
      } else {
        SaveNew(saving);
      }
    }

    /** `save(data)`: loads, then saves. */
    method Save(data: Option<Row>, reentries: nat) returns (out: Outcome)
      requires Valid()
      modifies this, db, clc
      ensures Valid() && loaded
      ensures out.Failed? <==> db.GetTable(settings.table).None?
      ensures out.Saved? ==> existing && out == Saved(Get(dataArr, settings.primary))
    {
      Load();
      out := SaveLoaded(data, reentries);
    }

    // -------------------------------------------------------------------------
    // delete

    /** `destroy`: data and slots cleared, flags reset. */
    method Destroy()
      modifies this
      ensures dataArr == map[] && !existing && !loaded && destroyed && parent == None
      ensures childrenAr == map k | k in old(childrenAr) :: Unloaded
      ensures dbDataArr == old(dbDataArr) && flagSaving == old(flagSaving) && afterSaveCalls == old(afterSaveCalls)
    {
      parent := None;
      var slots := childrenAr;
      var pending := slots.Keys;
      while pending != {}
        invariant pending <= childrenAr.Keys
        invariant slots == map k | k in childrenAr :: if k in pending then childrenAr[k] else Unloaded
        decreases pending
      {
        var k :| k in pending;
        slots := slots[k := Unloaded];
        pending := pending - {k};
      }
      childrenAr := slots;
      dataArr := map[];
      existing := false;
      loaded := false;
      destroyed := true;
    }

    /** One pass of the loop of `delete`: the ordering field `i` closes the gap the row leaves in its partition. */
    method ShiftOne(i: int)
      requires db.Valid() && settings.table.Some? && settings.table.value in db.tables
      requires 0 <= i < |shape.orderBy|
      modifies db
      ensures db.Valid()
      ensures db.depth == old(db.depth) && db.snapshot == old(db.snapshot)
      ensures var (k, dep) := shape.orderBy[i];
              var t := settings.table.value;
              db.tables == old(db.tables)[t := ShiftDown(old(db.Rows(t)), k, Dep(dep), ShiftParent(dep, dbDataArr), Get(dbDataArr, k))]
    {
      var (k, dep) := shape.orderBy[i];
      LookupAt(shape.orderBy, i);
      ShiftWithParent(db.Rows(settings.table.value), k, dep, dbDataArr, Get(dbDataArr, k));
      if dep.Some? {
        var _ := ShiftOrderField(k, Get(dbDataArr, k), Get(dbDataArr, dep.value));
      } else {
        var _ := ShiftOrderField(k, Get(dbDataArr, k), VNull);
      }
    }

    /** The loop of `delete` over the ordering fields. */
    method ShiftAllOrders()
      requires db.Valid() && settings.table.Some? && settings.table.value in db.tables
      modifies db
      ensures db.Valid()
      ensures db.depth == old(db.depth) && db.snapshot == old(db.snapshot)
      ensures db.tables == old(db.tables)[settings.table.value := ShiftAll(old(db.Rows(settings.table.value)), shape.orderBy, dbDataArr)]
    {
      var t := settings.table.value;
      ghost var rows0 := db.Rows(t);
      assert old(db.tables)[t := rows0] == old(db.tables);
      assert shape.orderBy[..0] == [];
      var i := 0;
      while i < |shape.orderBy|
        invariant 0 <= i <= |shape.orderBy|
        invariant db.Valid() && t in db.tables
        invariant db.depth == old(db.depth) && db.snapshot == old(db.snapshot)
        invariant db.tables == old(db.tables)[t := ShiftAll(rows0, shape.orderBy[..i], dbDataArr)]
      {
        ShiftAllStep(rows0, shape.orderBy, i, dbDataArr);
        ShiftOne(i);
        i := i + 1;
      }
      assert shape.orderBy[..i] == shape.orderBy;
    }

    /**
     * `delete` on a loaded element: false for one that does not exist; otherwise
     * shifts, deletes, commits and destroys. On a table the database does not
     * have, the first query raises and the transaction is rolled back.
     */
    method DeleteLoaded() returns (r: Deletion)
      requires Valid() && loaded
      modifies this, db
      ensures Valid()
      ensures r.NothingDeleted? <==> !old(existing)
      ensures r.DeleteRaised? <==> old(existing) && settings.table.Some? && settings.table.value !in old(db.tables)
      ensures r.NothingDeleted? ==> State() == old(State()) && db.tables == old(db.tables) && db.depth == old(db.depth) && db.snapshot == old(db.snapshot)
      ensures r.DeleteRaised? ==>
                State() == old(State()) && db.depth == 0 &&
                db.tables == (if old(db.depth) == 0 then old(db.tables) else old(db.snapshot))
      ensures r.Deleted? ==>
                var t := settings.table.value;
                db.tables == old(db.tables)[t := DeleteWhere(ShiftAll(old(db.Rows(t)), shape.orderBy, old(dbDataArr)),
                                                             map[settings.primary := Get(old(dataArr), settings.primary)])] &&
                db.depth == old(db.depth) && db.snapshot == (if old(db.depth) == 0 then old(db.tables) else old(db.snapshot)) &&
                destroyed && !loaded && !existing && dataArr == map[] && parent == None &&
                childrenAr == map k | k in old(childrenAr) :: Unloaded
    {
      if !existing {
        return NothingDeleted;
      }
      if settings.table.value !in db.tables {
        db.BeginTransaction();
        db.RollBack();
        return DeleteRaised;
      }
      DeleteRow();
      Destroy();
      return Deleted;
    }

    /** The transaction of `delete`: the siblings' order columns shift down, then the row goes. */
    method DeleteRow()
      requires db.Valid() && settings.table.Some? && settings.table.value in db.tables
      modifies db
      ensures db.Valid()
      ensures var t := settings.table.value;
              db.tables == old(db.tables)[t := DeleteWhere(ShiftAll(old(db.Rows(t)), shape.orderBy, dbDataArr),
                                                           map[settings.primary := Get(dataArr, settings.primary)])]
      ensures db.depth == old(db.depth) && db.snapshot == (if old(db.depth) == 0 then old(db.tables) else old(db.snapshot))
    {
      var t := settings.table.value;
      db.BeginTransaction();
      ShiftAllOrders();
      db.Delete(t, map[settings.primary := Get(dataArr, settings.primary)]);
      db.Commit();
    }

    /** `delete`: loads, then deletes. */
    method Delete() returns (r: Deletion)
      requires Valid()
      modifies this, db, clc
      ensures Valid()
      ensures r.Deleted? ==> destroyed && !existing
      ensures r.DeleteRaised? ==> existing && db.depth == 0
    {
      Load();
      r := DeleteLoaded();
    }

    // -------------------------------------------------------------------------
    // Children

    /** What `loadChildren` puts in the slot of a relationship, given the cache's buckets. */
    function ChildSlot(child: Relation, bs: Buckets): Slot
      reads this`dataArr, db
    {
      match child.relType
      case Single =>
        var v := Get(dataArr, child.field);
        if !Truthy(v) then Unloaded
        else if child.element != GenericElement then SingleLink(child.element, v)
        else SingleRow(First(db.Rows(child.table), map["id" := v]))
      case Multiple =>
        var (t, f, w) := ChildQuery(child, dataArr);
        if |w| > 1 then Many(FilterWhere(db.Rows(t), w))
        else Many(CachedChildren(bs, t, f, Get(dataArr, child.parentField), db.Rows(t)))
    }

    /** The buckets after `loadChildren` read a relationship. */
    function ChildBuckets(child: Relation, bs: Buckets): Buckets
      reads this`dataArr, db
    {
      var (t, f, w) := ChildQuery(child, dataArr);
      if child.relType == Multiple && |w| <= 1 then CacheAfter(bs, t, f, db.Rows(t)) else bs
    }

    /**
     * `loadChildren(i)` on a loaded element: a single child is linked through
     * its field; a set of children is read directly when the where-array has
     * other conditions, through the children loading cache otherwise.
     */
    method LoadChildrenLoaded(i: string) returns (ok: bool)
      requires Valid() && loaded
      modifies this`childrenAr, clc
      ensures Valid()
      ensures var c := Lookup(shape.children, i);
              (ok <==> c.Some? && ChildLoadable(c.value, dataArr)) &&
              (!ok ==> childrenAr == old(childrenAr) && clc.buckets == old(clc.buckets)) &&
              (ok ==> childrenAr == old(childrenAr)[i := ChildSlot(c.value, old(clc.buckets))] &&
                      clc.buckets == ChildBuckets(c.value, old(clc.buckets)))
    {
      var c := Lookup(shape.children, i);
      if c.None? {
        return false;
      }
      var child := c.value;
      if !ChildLoadable(child, dataArr) {
        return false;
      }
      assert i in childrenAr;
      var slot := LoadSlot(child);
      assert childrenAr[i := slot].Keys == childrenAr.Keys;
      childrenAr := childrenAr[i := slot];
      return true;
    }

    /** The read `loadChildren` makes for a relationship that passed its checks. */
    method LoadSlot(child: Relation) returns (slot: Slot)
      requires clc.Valid() && clc.db == db && ChildLoadable(child, dataArr)
      modifies clc
      ensures clc.Valid()
      ensures slot == ChildSlot(child, old(clc.buckets)) && clc.buckets == ChildBuckets(child, old(clc.buckets))
    {
      match child.relType {
        case Single =>
          var v := dataArr[child.field];
          if !Truthy(v) {
            slot := Unloaded;
          } else if child.element != GenericElement {
            slot := SingleLink(child.element, v);
          } else {
            var r := db.Select(child.table, map["id" := v]);
            slot := SingleRow(r);
          }
        case Multiple =>
          var (t, f, w) := ChildQuery(child, dataArr);
          var q: seq<Row>;
          if |w| > 1 {
            q := db.SelectAll(t, w);
          } else {
            q := clc.LoadFromChildrenLoadingCache(t, f, Get(dataArr, child.parentField));
          }
          slot := Many(q);
      }
    }

    /** `children(i)`: null for an undeclared relationship; otherwise loads the slot when it holds `false`. */
    method GetChildren(i: string) returns (slot: Option<Slot>)
      requires Valid()
      modifies this, clc
      ensures Valid()
      ensures slot.None? <==> Lookup(shape.children, i).None?
      ensures slot.Some? ==> loaded && i in childrenAr && slot.value == childrenAr[i]
      ensures slot.Some? && old(loaded) && i in old(childrenAr) && old(childrenAr)[i] != Unloaded ==>
                slot.value == old(childrenAr)[i] && State() == old(State()) && clc.buckets == old(clc.buckets)
    {
      if Lookup(shape.children, i).None? {
        return None;
      }
      Load();
      assert i in childrenAr;
      if childrenAr[i] == Unloaded {
        var _ := LoadChildrenLoaded(i);
      }
      slot := Some(childrenAr[i]);
    }

    // -------------------------------------------------------------------------
    // duplicate

    /** The loop of `duplicate` that drops the auto-increment fields. */
    method WithoutAutoIncrements(data: Row) returns (out: Row)
      ensures out == data - (set i | 0 <= i < |shape.autoIncrement| :: shape.autoIncrement[i].0)
    {
      out := data;
      var i := 0;
      while i < |shape.autoIncrement|
        invariant 0 <= i <= |shape.autoIncrement|
        invariant out == data - (set j | 0 <= j < i :: shape.autoIncrement[j].0)
      {
        var k := shape.autoIncrement[i].0;
        assert (set j | 0 <= j < i + 1 :: shape.autoIncrement[j].0) == (set j | 0 <= j < i :: shape.autoIncrement[j].0) + {k};
        if k in out {
          out := out - {k};
        }
        i := i + 1;
      }
    }

    /**
     * `duplicate(replace)`: a new element of the same class on the same table,
     * saved with this element's data less the primary key and auto-increment
     * fields, overridden by `duplicableWith` and then by `replace`.
     */
    method Duplicate(replace: Row, reentries: nat) returns (copy: Element, out: Outcome)
      requires Valid()
      modifies db, clc
      ensures fresh(copy) && copy.Valid() && copy.loaded && copy.db == db && copy.cls == cls && copy.settings.table == settings.table
      ensures out.Failed? <==> db.GetTable(settings.table).None?
      ensures out.Failed? ==> !copy.existing && db.tables == (if old(db.depth) == 0 then old(db.tables) else old(db.snapshot))
      ensures out.Saved? ==>
                var t := settings.table.value;
                var tm := db.GetTable(settings.table).value;
                var dup := DuplicateData(old(dataArr), settings.primary, set i | 0 <= i < |shape.autoIncrement| :: shape.autoIncrement[i].0,
                                         cls.replaceInDuplicate, replace);
                copy.existing && out == Saved(Get(copy.dataArr, "id")) && db.depth == old(db.depth) &&
                db.tables == old(db.tables)[t := old(db.Rows(t)) + [copy.dbDataArr]] &&
                forall k :: k in dup && k in tm && k != "id" && Truthy(Coerce(tm[k], dup[k])) ==>
                  k in copy.dbDataArr && copy.dbDataArr[k] == Coerce(tm[k], dup[k])
    {
      db.BeginTransaction();
      var data := GetData();
      data := WithoutAutoIncrements(data);
      data := data + cls.replaceInDuplicate;
      data := data + replace;
      ghost var ai := set i | 0 <= i < |shape.autoIncrement| :: shape.autoIncrement[i].0;
      assert data == DuplicateData(dataArr, settings.primary, ai, cls.replaceInDuplicate, replace);
      copy, out := CreateAndSave(cls, tableOf, settings.table, db, clc, clock, data, reentries);
      if out.Failed? {
        db.RollBack();
      } else {
        db.Commit();
      }
    }
  }

  /**
   * `create(class, ['table' => table])->save(data)`: a fresh element with a
   * false id, loaded, then saved with `data` as a new row.
   */
  method CreateAndSave(cls: ElementClass, tableOf: string -> string, table: Option<string>, db: Db, clc: ChildrenLoadingCache,
                       clock: Clock, data: Row, reentries: nat) returns (copy: Element, out: Outcome)
    requires db.Valid() && clc.Valid() && clc.db == db
    modifies db, clc
    ensures fresh(copy) && copy.Valid() && copy.loaded && copy.db == db && copy.cls == cls && copy.settings.table == table
    ensures out.Failed? <==> db.GetTable(table).None?
    ensures out.Failed? ==> !copy.existing && db.tables == old(db.tables) && db.depth == old(db.depth) && db.snapshot == old(db.snapshot)
    ensures out.Saved? ==>
              var t := table.value;
              var tm := db.GetTable(table).value;
              copy.existing && out == Saved(Get(copy.dataArr, "id")) && db.depth == old(db.depth) &&
              db.tables == old(db.tables)[t := old(db.Rows(t)) + [copy.dbDataArr]] &&
              forall k :: k in data && k in tm && k != "id" && Truthy(Coerce(tm[k], data[k])) ==>
                k in copy.dbDataArr && copy.dbDataArr[k] == Coerce(tm[k], data[k])
  {
    copy := new Element(cls, tableOf, map["id" := VBool(false)], Settings(table, "id", false, map[], None), db, clc, clock);
    copy.Load();
    ghost var d0, e0 := copy.dataArr, copy.dbDataArr;
    assert !copy.existing;
    out := copy.SaveLoaded(Some(data), reentries);
    if out.Saved? {
      var tm := db.GetTable(table).value;
      DuplicateStored(tm, d0, e0, data, copy.shape.autoIncrement, old(db.Rows(table.value)));
    }
  }

  /**
   * The row `save(data)` inserts for a new element holds every truthy staged
   * value of `data` as given, coerced.
   */
  lemma DuplicateStored(tm: TableModel, d0: Row, e0: Row, data: Row, ai: Dict<seq<string>>, rows: seq<Row>)
    ensures var keys := tm.Keys - {"id"};
            var d1 := d0 + Staged(tm, keys, data);
            var saving := Staged(tm, keys, WithoutPrimary(d1, "id"));
            var st := NewSave(SaveState(rows, d1 + saving, e0), ai, "id", saving);
            forall k :: k in data && k in tm && k != "id" && Truthy(Coerce(tm[k], data[k])) ==>
              k in st.dbData && st.dbData[k] == Coerce(tm[k], data[k])
  {
    var keys := tm.Keys - {"id"};
    var d1 := d0 + Staged(tm, keys, data);
    var saving := Staged(tm, keys, WithoutPrimary(d1, "id"));
    AutoIncrementsKeep(saving, ai, rows);
    forall k | k in data && k in tm && k != "id" && Truthy(Coerce(tm[k], data[k]))
      ensures k in saving && saving[k] == Coerce(tm[k], data[k])
    {
      assert d1[k] == Coerce(tm[k], data[k]);
    }
  }

  lemma ApplyMovesStep(rows: seq<Row>, ob: Dict<Option<string>>, i: int, realSave: Row, dbData: Row)
    requires 0 <= i < |ob|
    ensures ApplyMoves(rows, ob[..i + 1], realSave, dbData) == MoveStep(ApplyMoves(rows, ob[..i], realSave, dbData), ob[i].0, ob[i].1, dbData)
  {
    assert ob[..i + 1][..i] == ob[..i];
  }

  lemma ShiftAllStep(rows: seq<Row>, ob: Dict<Option<string>>, i: int, dbData: Row)
    requires 0 <= i < |ob|
    ensures ShiftAll(rows, ob[..i + 1], dbData) ==
            ShiftDown(ShiftAll(rows, ob[..i], dbData), ob[i].0, Dep(ob[i].1), ShiftParent(ob[i].1, dbData), Get(dbData, ob[i].0))
  {
    assert ob[..i + 1][..i] == ob[..i];
  }

  lemma ShiftWithParent(rows: seq<Row>, f: string, dep: Option<string>, dbData: Row, oldOrder: Value)
    ensures ShiftDown(rows, f, Dep(dep), if dep.Some? then Get(dbData, dep.value) else VNull, oldOrder) ==
            ShiftDown(rows, f, Dep(dep), ShiftParent(dep, dbData), oldOrder)
  {
    if Dep(dep).None? {
      ShiftIgnoresParent(rows, f, if dep.Some? then Get(dbData, dep.value) else VNull, oldOrder);
    }
  }

  /** With no partition column the shift ignores the parent value. */
  lemma ShiftIgnoresParent(rows: seq<Row>, f: string, parent: Value, oldOrder: Value)
    ensures ShiftDown(rows, f, None, parent, oldOrder) == ShiftDown(rows, f, None, VNull, oldOrder)
  {
  }
}
