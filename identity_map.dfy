/**
 * The identity map of the ORM: `one`, `create` and `all` hand out at most one
 * element per (class, id) through `objects_cache`, unless a clone is asked for.
 */
module IdentityMap {
  import opened Values
  import opened Database
  import opened ChildrenCache
  import opened ElementData
  import opened Elements
  import opened ElementsStream

  /** The options `one` reads: `table` (None when not given) and `clone`. */
  datatype OneOptions = OneOptions(table: Option<string>, clone: bool)

  /** The `$where` of `one`: a scalar id (`false` for a new element) or a where-array. */
  datatype Target = ById(id: Value) | ByWhere(where: Where)

  /** What `one` returns: an element, `false`, or the error the model raises. */
  datatype OneResult = Found(element: Element) | NotFound | Raised

  /**
   * What `one` does, decided from the state it reads: serve a cached element,
   * build one (from `data`, with `settings`, loading it when `load`, caching it
   * under `cacheAs`), return false, or raise.
   */
  datatype Plan = Cached(key: Value) | Build(data: Row, settings: Settings, load: bool, cacheAs: Option<Value>) | Missing | Raise

  /** `$options['table'] ?: $element::$table`. */
  function ResolvedTable(requested: Option<string>, clsTable: Option<string>): (t: Option<string>)
    ensures requested.Some? && Named(requested.value) ==> t == requested
    ensures !(requested.Some? && Named(requested.value)) ==> t == clsTable
  {
    if requested.Some? && Named(requested.value) then requested else clsTable
  }

  /** The table is truthy. */
  predicate Present(t: Option<string>)
  {
    t.Some? && Named(t.value)
  }

  /** The rows of table `t`, none for an unknown table. */
  function RowsOf(tables: map<string, seq<Row>>, t: Option<string>): seq<Row>
  {
    if t.Some? && t.value in tables then tables[t.value] else []
  }

  /** The data `new $element($where)` starts from: the where-array, or `[primary => id]`. */
  function TargetData(target: Target): Row
  {
    match target
    case ById(id) => map["id" := id]
    case ByWhere(w) => w
  }

  /** The settings of an element `one` builds, whose table is `table`. */
  function SettingsWith(table: Option<string>, preLoaded: bool): Settings
  {
    Settings(table, "id", preLoaded, map[], None)
  }

  /** The keys cached for class `name`. */
  function CachedKeys(cache: map<string, map<Value, Element>>, name: string): set<Value>
  {
    if name in cache then cache[name].Keys else {}
  }

  /**
   * The decision `one` takes when the element it builds gets the table
   * `elementTable`. A where-array is selected from `$options['table'] ?:
   * $element::$table`; an id is checked by loading the element from its own
   * table. Only these queries raise on a table the database does not have:
   * `create` (an id of false) and a cached id make none.
   */
  function PlanWith(elementTable: Option<string>, clsTable: Option<string>, target: Target, options: OneOptions,
                    tables: map<string, seq<Row>>, cached: set<Value>): (p: Plan)
    ensures options.clone ==> !p.Cached? && !(p.Build? && p.cacheAs.Some?)
    ensures p.Cached? ==> p.key in cached
    ensures !Present(ResolvedTable(options.table, clsTable)) ==> p.Build? && p.cacheAs.None? && !p.load
  {
    var t := ResolvedTable(options.table, clsTable);
    var s := SettingsWith(elementTable, false);
    if !Present(t) then Build(TargetData(target), s, false, None)
    else
      match target
      case ByWhere(w) =>
        if t.value !in tables then Raise
        else (match First(tables[t.value], w)
         case None => Missing
         case Some(sel) =>
           var key := ArrayKey(RowId(sel));
           if key in cached && !options.clone then Cached(key)
           else Build(sel, SettingsWith(elementTable, true), false, if options.clone then None else Some(key)))
      case ById(id) =>
        if id != VBool(false) && !IsNumeric(id) then Raise
        else if id != VBool(false) && ArrayKey(id) in cached && !options.clone then Cached(ArrayKey(id))
        else if id != VBool(false) && Present(elementTable) && elementTable.value !in tables then Raise
        else if id != VBool(false) && !Fetch(s, map["id" := id], map[], RowsOf(tables, elementTable)).existing then Missing
        else Build(map["id" := id], s, id != VBool(false),
                   if options.clone then None else Some(ArrayKey(id)))
  }

  /** `one` as intended: the element it builds reads the table it was looked up in. */
  function OnePlan(clsTable: Option<string>, target: Target, options: OneOptions, tables: map<string, seq<Row>>, cached: set<Value>): Plan
  {
    PlanWith(ResolvedTable(options.table, clsTable), clsTable, target, options, tables, cached)
  }

  /**
   * `one` as written: the `'table' => null` default of its options overrides
   * the element's own static table, so the element gets `$options['table']`.
   */
  function OnePlanAsWritten(clsTable: Option<string>, target: Target, options: OneOptions, tables: map<string, seq<Row>>, cached: set<Value>): Plan
  {
    PlanWith(options.table, clsTable, target, options, tables, cached)
  }

  /**
   * As written, `one(element, id)` without a `table` option never finds a
   * row, whatever the table holds: the element it builds has no table, so
   * `exists()` is false and `one` returns false.
   */
  lemma OneByIdAsWritten(clsTable: Option<string>, id: Value, clone: bool, tables: map<string, seq<Row>>, cached: set<Value>)
    requires Present(clsTable)
    requires id != VBool(false) && IsNumeric(id) && (clone || ArrayKey(id) !in cached)
    ensures OnePlanAsWritten(clsTable, ById(id), OneOptions(None, clone), tables, cached) == Missing
  {
  }

  /**
   * `one('Post', 5)` on a table holding the row with id 5: the `'table' => null`
   * default replaces `Post::$table` in the element's settings, so the row is
   * there and yet the lookup reports none.
   */
  lemma OneByIdAsWrittenExample()
    ensures var tables := map["posts" := [map["id" := VInt(5)]]];
            exists r :: r in tables["posts"] && Matches(r, map["id" := VInt(5)])
    ensures OnePlanAsWritten(Some("posts"), ById(VInt(5)), OneOptions(None, false),
                             map["posts" := [map["id" := VInt(5)]]], {}) == Missing
  {
    var r: Row := map["id" := VInt(5)];
    assert r in [r] && Matches(r, map["id" := VInt(5)]);
  }

  /**
   * As written, the element `one(element, where)` builds is pre-loaded with
   * no table, so it reports that it does not exist although its row does.
   */
  lemma OneByWhereAsWritten(clsTable: Option<string>, w: Where, clone: bool, tables: map<string, seq<Row>>, cached: set<Value>)
    requires Present(clsTable) && clsTable.value in tables
    requires var p := OnePlanAsWritten(clsTable, ByWhere(w), OneOptions(None, clone), tables, cached); p.Build?
    ensures var p := OnePlanAsWritten(clsTable, ByWhere(w), OneOptions(None, clone), tables, cached);
            p.data in tables[clsTable.value] && Matches(p.data, w) &&
            !Fetch(p.settings, p.data, map[], tables[clsTable.value]).existing
  {
    var sel := First(tables[clsTable.value], w);
    assert sel.value in FilterWhere(tables[clsTable.value], w);
    FilterMember(tables[clsTable.value], w, "id", VNull, []);
  }

  /**
   * `one(element, id)` as intended: with a numeric id that is not served from
   * the cache, it builds and loads an element exactly when the table has a row
   * with that id, which the element then holds; otherwise it returns false.
   */
  lemma OneByIdFindsRow(clsTable: Option<string>, id: Value, options: OneOptions, tables: map<string, seq<Row>>, cached: set<Value>)
    requires var t := ResolvedTable(options.table, clsTable); Present(t) && t.value in tables
    requires id != VBool(false) && IsNumeric(id) && (options.clone || ArrayKey(id) !in cached)
    ensures var t := ResolvedTable(options.table, clsTable);
            var p := OnePlan(clsTable, ById(id), options, tables, cached);
            (p.Build? <==> exists r :: r in tables[t.value] && Matches(r, map["id" := id])) &&
            (!p.Build? ==> p == Missing)
    ensures var t := ResolvedTable(options.table, clsTable);
            var p := OnePlan(clsTable, ById(id), options, tables, cached);
            p.Build? ==> p.load && p.cacheAs == (if options.clone then None else Some(ArrayKey(id))) &&
                         var f := Fetch(p.settings, p.data, map[], tables[t.value]);
                         f.existing && f.dbData in tables[t.value] && Get(f.dbData, "id") == id
  {
    var t := ResolvedTable(options.table, clsTable);
    assert IsSet(map["id" := id], "id");
    FetchSpec(SettingsWith(t, false), map["id" := id], map[], tables[t.value]);
  }

  /**
   * `one(element, where)` as intended: false when no row matches; otherwise
   * the cached element of the row's id, or a new one holding the row, which
   * exists exactly when that id is a truthy number.
   */
  lemma OneByWhereFindsRow(clsTable: Option<string>, w: Where, options: OneOptions, tables: map<string, seq<Row>>, cached: set<Value>)
    requires var t := ResolvedTable(options.table, clsTable); Present(t) && t.value in tables
    ensures var t := ResolvedTable(options.table, clsTable);
            var p := OnePlan(clsTable, ByWhere(w), options, tables, cached);
            (p == Missing <==> forall r :: r in tables[t.value] ==> !Matches(r, w)) &&
            !p.Raise?
    ensures var t := ResolvedTable(options.table, clsTable);
            var p := OnePlan(clsTable, ByWhere(w), options, tables, cached);
            p.Build? ==> p.data in tables[t.value] && Matches(p.data, w) && !p.load &&
                         (Fetch(p.settings, p.data, map[], tables[t.value]).existing <==>
                            Truthy(Get(p.data, "id")) && IsNumeric(Get(p.data, "id")))
  {
    var t := ResolvedTable(options.table, clsTable);
    FirstMatching(tables[t.value], w);
  }

  /** `select(table, where)`: no row when none matches, otherwise a matching row of the table. */
  lemma FirstMatching(rows: seq<Row>, w: Where)
    ensures First(rows, w).None? <==> forall r :: r in rows ==> !Matches(r, w)
    ensures First(rows, w).Some? ==> First(rows, w).value in rows && Matches(First(rows, w).value, w)
  {
    FilterMember(rows, w, "id", VNull, []);
    var sel := First(rows, w);
    if sel.Some? {
      assert sel.value in FilterWhere(rows, w);
    } else {
      assert forall r :: r in rows && Matches(r, w) ==> r in FilterWhere(rows, w);
    }
  }

  /**
   * `create(element)`: `one(element, false)` makes no query, so it always
   * builds a new element, on a known table or not, cached under key 0 unless
   * it is cloned or has no table.
   */
  lemma CreateBuilds(clsTable: Option<string>, options: OneOptions, tables: map<string, seq<Row>>, cached: set<Value>)
    ensures var p := OnePlan(clsTable, ById(VBool(false)), options, tables, cached);
            p.Build? && !p.load && p.data == map["id" := VBool(false)] &&
            p.cacheAs == (if options.clone || !Present(ResolvedTable(options.table, clsTable)) then None else Some(VInt(0)))
  {
    ArrayKeyOfIntString(0);
  }

  /**
   * As written, `create(element)` without a `table` option builds an element
   * with no table, whatever the class's static table: the `'table' => null`
   * default replaces it, so that element's `save` finds no table model and fails.
   */
  lemma CreateAsWritten(clsTable: Option<string>, clone: bool, tables: map<string, seq<Row>>, cached: set<Value>)
    ensures var p := OnePlanAsWritten(clsTable, ById(VBool(false)), OneOptions(None, clone), tables, cached);
            p.Build? && !p.load && p.data == map["id" := VBool(false)] && p.settings.table == None &&
            p.cacheAs == (if clone || !Present(clsTable) then None else Some(VInt(0)))
  {
    ArrayKeyOfIntString(0);
  }

  /**
   * `one` on a truthy table the database does not have raises exactly when it
   * queries: for a where-array, and for an id that is neither false nor served
   * from the cache. A cached id is returned as it is, and `create` builds.
   */
  lemma OneOnUnknownTable(clsTable: Option<string>, target: Target, options: OneOptions, tables: map<string, seq<Row>>, cached: set<Value>)
    requires var t := ResolvedTable(options.table, clsTable); Present(t) && t.value !in tables
    ensures var p := OnePlan(clsTable, target, options, tables, cached);
            p.Raise? <==> target.ByWhere? || (target.id != VBool(false) && (!IsNumeric(target.id) || options.clone || ArrayKey(target.id) !in cached))
    ensures var p := OnePlan(clsTable, target, options, tables, cached);
            target.ById? && target.id != VBool(false) && IsNumeric(target.id) && !options.clone && ArrayKey(target.id) in cached ==>
              p == Cached(ArrayKey(target.id))
    ensures var p := OnePlan(clsTable, target, options, tables, cached);
            target == ById(VBool(false)) ==> p.Build? && !p.load
  {
  }

  /** The order-by pieces `stringOrderBy` joins: `dep,field`, or `field` when it has no truthy `depending_on`. */
  function OrderByPiece(e: (string, Option<string>)): string
  {
    if e.1.Some? && Named(e.1.value) then e.1.value + "," + e.0 else e.0
  }

  function OrderByPieces(orderBy: Dict<Option<string>>): (ps: seq<string>)
    ensures |ps| == |orderBy|
    ensures forall i :: 0 <= i < |orderBy| ==> ps[i] == OrderByPiece(orderBy[i])
  {
    if orderBy == [] then [] else [OrderByPiece(orderBy[0])] + OrderByPieces(orderBy[1..])
  }

  /** `stringOrderBy`: the pieces of the declared order fields, comma-separated, in declaration order. */
  function StringOrderBy(orderBy: Dict<Option<string>>): string
  {
    Join(OrderByPieces(orderBy), ',')
  }

  /** The column list an ORDER BY names: each order field preceded by its truthy `depending_on`. */
  function OrderColumns(orderBy: Dict<Option<string>>): (cs: seq<string>)
    ensures |cs| >= |orderBy|
  {
    if orderBy == [] then []
    else
      var e := orderBy[0];
      (if e.1.Some? && Named(e.1.value) then [e.1.value, e.0] else [e.0]) + OrderColumns(orderBy[1..])
  }

  /** No field or `depending_on` name contains a comma. */
  predicate CommaFree(orderBy: Dict<Option<string>>)
  {
    forall i :: 0 <= i < |orderBy| ==> ',' !in orderBy[i].0 && (orderBy[i].1.Some? ==> ',' !in orderBy[i].1.value)
  }

  lemma {:induction false} JoinAppend(a: seq<string>, b: seq<string>, sep: char)
    requires |a| > 0 && |b| > 0
    ensures Join(a + b, sep) == Join(a, sep) + [sep] + Join(b, sep)
    decreases |a|
  {
    if |a| == 1 {
      assert (a + b)[1..] == b;
    } else {
      JoinAppend(a[1..], b, sep);
      assert (a + b)[1..] == a[1..] + b;
    }
  }

  lemma {:induction false} PiecesJoinColumns(orderBy: Dict<Option<string>>)
    ensures Join(OrderByPieces(orderBy), ',') == Join(OrderColumns(orderBy), ',')
    decreases |orderBy|
  {
    if orderBy != [] {
      var e := orderBy[0];
      var head := if e.1.Some? && Named(e.1.value) then [e.1.value, e.0] else [e.0];
      assert Join(head, ',') == OrderByPiece(e) by {
        if |head| == 2 {
          assert head[1..] == [e.0];
        }
      }
      PiecesJoinColumns(orderBy[1..]);
      if |orderBy| > 1 {
        assert OrderByPieces(orderBy) == [OrderByPiece(e)] + OrderByPieces(orderBy[1..]);
        assert |OrderColumns(orderBy[1..])| > 0;
        JoinAppend(head, OrderColumns(orderBy[1..]), ',');
      } else {
        assert orderBy[1..] == [];
        assert OrderColumns(orderBy) == head;
      }
    }
  }

  lemma {:induction false} OrderColumnsCommaFree(orderBy: Dict<Option<string>>)
    requires CommaFree(orderBy)
    ensures forall i :: 0 <= i < |OrderColumns(orderBy)| ==> ',' !in OrderColumns(orderBy)[i]
    decreases |orderBy|
  {
    if orderBy != [] {
      assert CommaFree(orderBy[1..]) by {
        forall i | 0 <= i < |orderBy[1..]| ensures ',' !in orderBy[1..][i].0 {
          assert orderBy[1..][i] == orderBy[i + 1];
        }
      }
      OrderColumnsCommaFree(orderBy[1..]);
    }
  }

  /**
   * Reading the ORDER BY string back gives the columns in declaration order,
   * each order field after its `depending_on`.
   */
  lemma StringOrderByColumns(orderBy: Dict<Option<string>>)
    requires orderBy != [] && CommaFree(orderBy)
    ensures Split(StringOrderBy(orderBy), ',') == OrderColumns(orderBy)
  {
    PiecesJoinColumns(orderBy);
    OrderColumnsCommaFree(orderBy);
    SplitJoin(OrderColumns(orderBy), ',');
  }

  /** The `order_by` option of `all`: the caller's when truthy, else the one derived from the tree's order fields. */
  function EffectiveOrderBy(treeOrderBy: Option<Dict<Option<string>>>, requested: Option<string>): (ob: Option<string>)
    ensures requested.Some? && Named(requested.value) ==> ob == requested
    ensures !(requested.Some? && Named(requested.value)) && treeOrderBy.Some? && treeOrderBy.value != [] ==>
              ob == Some(StringOrderBy(treeOrderBy.value))
    ensures (treeOrderBy.None? || treeOrderBy.value == []) ==> ob == requested
  {
    if treeOrderBy.Some? && treeOrderBy.value != [] && !(requested.Some? && Named(requested.value))
    then Some(StringOrderBy(treeOrderBy.value)) else requested
  }

  /** The options `all` reads. */
  datatype AllOptions = AllOptions(table: Option<string>, orderBy: Option<string>, stream: bool)

  /** What `all` returns, with the `order_by` its query is issued with. */
  datatype AllResult = Listed(elements: seq<Element>, orderBy: Option<string>)
                     | Streamed(stream: ElementsIterator, orderBy: Option<string>)
                     | AllRaised

  /** Every cached element is of the class it is cached under and uses the database `db` and the cache `clc`. */
  ghost predicate Coherent(cache: map<string, map<Value, Element>>, db: Db, clc: ChildrenLoadingCache)
  {
    forall n, k :: n in cache && k in cache[n] ==> cache[n][k].cls.name == n && cache[n][k].db == db && cache[n][k].clc == clc
  }

  /** Caching an element of class `name` under `key` keeps the cache coherent. */
  lemma CachePut(cache: map<string, map<Value, Element>>, db: Db, clc: ChildrenLoadingCache, name: string, key: Value, e: Element)
    requires Coherent(cache, db, clc) && e.cls.name == name && e.db == db && e.clc == clc
    ensures Coherent(cache[name := CachedOf(cache, name)[key := e]], db, clc)
  {
  }

  /** Replacing the elements of class `name` by elements of that class keeps the cache coherent. */
  lemma CacheReplace(cache: map<string, map<Value, Element>>, db: Db, clc: ChildrenLoadingCache, name: string, m: map<Value, Element>)
    requires Coherent(cache, db, clc)
    requires forall k :: k in m ==> m[k].cls.name == name && m[k].db == db && m[k].clc == clc
    ensures Coherent(cache[name := m], db, clc)
  {
  }

  class IdentityMap {
    /** `objects_cache[element][id]`. */
    var cache: map<string, map<Value, Element>>
    const db: Db
    const clc: ChildrenLoadingCache
    const tableOf: string -> string
    const clock: Clock

    /** Every cached element is of the class it is cached under and shares this ORM's database and cache. */
    ghost predicate Valid()
      reads this, db, clc
    {
      db.Valid() && clc.Valid() && clc.db == db && Coherent(cache, db, clc)
    }

    constructor (db: Db, clc: ChildrenLoadingCache, tableOf: string -> string, clock: Clock)
      requires db.Valid() && clc.Valid() && clc.db == db
      ensures Valid() && cache == map[]
      ensures this.db == db && this.clc == clc && this.tableOf == tableOf && this.clock == clock
    {
      this.db := db;
      this.clc := clc;
      this.tableOf := tableOf;
      this.clock := clock;
      cache := map[];
    }

    /**
     * The call that returned `r` carried out the plan `p` made on the state
     * before it: a cached element is returned as is; a built one is new, holds
     * the row its plan names, and is cached under its id unless it is a clone.
     */
    twostate predicate Performs(p: Plan, new r: OneResult, cls: ElementClass, tables: map<string, seq<Row>>)
      reads this, if r.Found? then {r.element} else {}
    {
      match p
      case Raise => r == Raised && cache == old(cache)
      case Missing => r == NotFound && cache == old(cache)
      case Cached(k) => k in CachedOf(old(cache), cls.name) && r == Found(CachedOf(old(cache), cls.name)[k]) && cache == old(cache)
      case Build(data, s, load, cacheAs) =>
        r.Found? && fresh(r.element) && r.element.cls == cls && r.element.settings == s &&
        r.element.db == db && r.element.clc == clc &&
        (!load ==> r.element.dataArr == data && !r.element.loaded && !r.element.existing) &&
        (load ==> r.element.loaded && r.element.existing &&
                  r.element.dbDataArr == Fetch(s, data, map[], RowsOf(tables, s.table)).dbData) &&
        cache == (if cacheAs.None? then old(cache) else old(cache)[cls.name := CachedOf(old(cache), cls.name)[cacheAs.value := r.element]])
    }

    /** `one(element, where, options)`: carries out what `OnePlan` decides on the state before the call. */
    method One(cls: ElementClass, target: Target, options: OneOptions) returns (r: OneResult)
      requires Valid()
      modifies this`cache, clc
      ensures Valid() && db.tables == old(db.tables)
      ensures Performs(OnePlan(cls.table, target, options, old(db.tables), CachedKeys(old(cache), cls.name)), r, cls, old(db.tables))
    {
      var t := ResolvedTable(options.table, cls.table);
      if !Present(t) {
        var e := NewElement(cls, tableOf, TargetData(target), SettingsWith(t, false), db, clc, clock);
        return Found(e);
      }
      match target {
        case ByWhere(w) =>
          if t.value !in db.tables {
            return Raised;
          }
          r := OneByWhere(cls, w, options);
        case ById(id) => r := OneById(cls, id, options);
      }
    }

    /** `one` with a where-array, on a known table. */
    method OneByWhere(cls: ElementClass, w: Where, options: OneOptions) returns (r: OneResult)
      requires Valid()
      requires var t := ResolvedTable(options.table, cls.table); Present(t) && t.value in db.tables
      modifies this`cache, clc
      ensures Valid() && db.tables == old(db.tables)
      ensures Performs(OnePlan(cls.table, ByWhere(w), options, old(db.tables), CachedKeys(old(cache), cls.name)), r, cls, old(db.tables))
    {
      var t := ResolvedTable(options.table, cls.table);
      var cached := CachedOf(cache, cls.name);
      ghost var p := OnePlan(cls.table, ByWhere(w), options, db.tables, CachedKeys(cache, cls.name));
      var sel := db.Select(t.value, w);
      if sel.None? {
        assert p == Missing;
        return NotFound;
      }
      var key := ArrayKey(RowId(sel.value));
      if key in cached && !options.clone {
        assert p == Cached(key);
        return Found(cached[key]);
      }
      assert p == Build(sel.value, SettingsWith(t, true), false, if options.clone then None else Some(key));
      var e := NewElement(cls, tableOf, sel.value, SettingsWith(t, true), db, clc, clock);
      if !options.clone {
        CachePut(cache, db, clc, cls.name, key, e);
        cache := cache[cls.name := cached[key := e]];
      }
      r := Found(e);
    }

    /** `one` with a scalar id, on a truthy table: the id is checked, then the cache, then the table. */
    method OneById(cls: ElementClass, id: Value, options: OneOptions) returns (r: OneResult)
      requires Valid()
      requires Present(ResolvedTable(options.table, cls.table))
      modifies this`cache, clc
      ensures Valid() && db.tables == old(db.tables)
      ensures Performs(OnePlan(cls.table, ById(id), options, old(db.tables), CachedKeys(old(cache), cls.name)), r, cls, old(db.tables))
    {
      var cached := CachedOf(cache, cls.name);
      ghost var p := OnePlan(cls.table, ById(id), options, db.tables, CachedKeys(cache, cls.name));
      if id != VBool(false) && !IsNumeric(id) {
        assert p == Raise;
        return Raised;
      }
      var key := ArrayKey(id);
      if id != VBool(false) && key in cached && !options.clone {
        assert p == Cached(key);
        return Found(cached[key]);
      }
      if id != VBool(false) && ResolvedTable(options.table, cls.table).value !in db.tables {
        assert p == Raise;
        return Raised;
      }
      r := BuildById(cls, id, options);
    }

    /** `one` by id past the cache: a new element for the id, loaded and checked unless the id is false. */
    method BuildById(cls: ElementClass, id: Value, options: OneOptions) returns (r: OneResult)
      requires Valid()
      requires var t := ResolvedTable(options.table, cls.table); Present(t) && (id == VBool(false) || t.value in db.tables)
      requires id == VBool(false) || IsNumeric(id)
      requires id == VBool(false) || options.clone || ArrayKey(id) !in CachedKeys(cache, cls.name)
      modifies this`cache, clc
      ensures Valid() && db.tables == old(db.tables)
      ensures Performs(OnePlan(cls.table, ById(id), options, old(db.tables), CachedKeys(old(cache), cls.name)), r, cls, old(db.tables))
    {
      var t := ResolvedTable(options.table, cls.table);
      var cached := CachedOf(cache, cls.name);
      var key := ArrayKey(id);
      ghost var p := OnePlan(cls.table, ById(id), options, db.tables, CachedKeys(cache, cls.name));
      var e := NewElement(cls, tableOf, map["id" := id], SettingsWith(t, false), db, clc, clock);
      if id != VBool(false) {
        var found := e.Exists();
        if !found {
          assert p == Missing;
          return NotFound;
        }
      }
      assert p == Build(map["id" := id], SettingsWith(t, false), id != VBool(false), if options.clone then None else Some(key));
      if !options.clone {
        CachePut(cache, db, clc, cls.name, key, e);
        cache := cache[cls.name := cached[key := e]];
      }
      r := Found(e);
    }

    /** `create(element, options)`: `one(element, false, options)`. */
    method Create(cls: ElementClass, options: OneOptions) returns (r: OneResult)
      requires Valid()
      modifies this`cache, clc
      ensures Valid()
      ensures var t := ResolvedTable(options.table, cls.table);
              r.Found? && fresh(r.element) && r.element.dataArr == map["id" := VBool(false)] && !r.element.loaded &&
              r.element.settings.table == t &&
              cache == (if options.clone || !Present(t) then old(cache)
                        else old(cache)[cls.name := CachedOf(old(cache), cls.name)[VInt(0) := r.element]])
    {
      CreateBuilds(cls.table, options, db.tables, CachedKeys(cache, cls.name));
      r := One(cls, ById(VBool(false)), options);
    }

    /**
     * `all(element, where, options)` without `stream`: for each matching row,
     * in order, the element cached under the row's id, creating and caching a
     * pre-loaded one for every id not cached yet. With `stream`, an iterator
     * over the same rows, and the cache untouched.
     */
    method All(cls: ElementClass, where: Where, options: AllOptions, treeOrderBy: Option<Dict<Option<string>>>)
      returns (r: AllResult)
      requires Valid()
      modifies this`cache, clc
      ensures Valid() && db.tables == old(db.tables)
      ensures var t := ResolvedTable(options.table, cls.table);
              r.AllRaised? <==> !Present(t) || t.value !in old(db.tables)
      ensures r.AllRaised? ==> cache == old(cache)
      ensures r.Streamed? ==>
                options.stream && cache == old(cache) && fresh(r.stream) && r.stream.Valid() &&
                r.stream.cursor == 0 && r.stream.current == Pending && r.stream.cls == cls &&
                r.orderBy == EffectiveOrderBy(treeOrderBy, options.orderBy) &&
                var t := ResolvedTable(options.table, cls.table);
                r.stream.rows == FilterWhere(RowsOf(old(db.tables), t), where)
      ensures r.Listed? ==>
                !options.stream && r.orderBy == EffectiveOrderBy(treeOrderBy, options.orderBy) &&
                var t := ResolvedTable(options.table, cls.table);
                var rows := FilterWhere(RowsOf(old(db.tables), t), where);
                CachesRows(r.elements, rows, cls, old(cache), cache)
      ensures r.Listed? ==>
                var rows := FilterWhere(RowsOf(old(db.tables), ResolvedTable(options.table, cls.table)), where);
                var m0 := CachedOf(old(cache), cls.name);
                var m := CachedOf(cache, cls.name);
                forall k :: k in m && k !in m0 ==>
                  fresh(m[k]) && BuiltFrom(m[k], k, cls, rows, db, clc)
      ensures !r.AllRaised? ==> (r.Streamed? <==> options.stream)
    {
      var t := ResolvedTable(options.table, cls.table);
      if !Present(t) || t.value !in db.tables {
        return AllRaised;
      }
      var orderBy := EffectiveOrderBy(treeOrderBy, options.orderBy);
      var rows := db.SelectAll(t.value, where);
      if options.stream {
        var it := new ElementsIterator(cls, tableOf, rows, db, clc, clock);
        return Streamed(it, orderBy);
      }
      var elements := ListRows(cls, rows);
      r := Listed(elements, orderBy);
    }

    /** The listing half of `all`: an element per row, cached by id, new ones pre-loaded with their row. */
    method ListRows(cls: ElementClass, rows: seq<Row>) returns (elements: seq<Element>)
      requires Valid()
      modifies this`cache, clc
      ensures Valid()
      ensures CachesRows(elements, rows, cls, old(cache), cache)
      ensures var m0 := CachedOf(old(cache), cls.name);
              var m := CachedOf(cache, cls.name);
              forall k :: k in m && k !in m0 ==> fresh(m[k]) && BuiltFrom(m[k], k, cls, rows, db, clc)
    {
      var m0 := CachedOf(cache, cls.name);
      var m;
      elements, m := CacheRows(cls, tableOf, rows, db, clc, clock, m0);
      ListedCoherent(cache, db, clc, cls, rows, m);
      CachesRowsWritten(elements, rows, cls, cache, m);
      if |rows| > 0 {
        cache := cache[cls.name := m];
      }
    }
  }

  /** Caching the elements `all` listed keeps the cache coherent: old ones stay, new ones are built for the class. */
  lemma ListedCoherent(cache: map<string, map<Value, Element>>, db: Db, clc: ChildrenLoadingCache, cls: ElementClass,
                       rows: seq<Row>, m: map<Value, Element>)
    requires Coherent(cache, db, clc)
    requires forall k :: k in CachedOf(cache, cls.name) ==> k in m && m[k] == CachedOf(cache, cls.name)[k]
    requires forall k :: k in m && k !in CachedOf(cache, cls.name) ==> BuiltFrom(m[k], k, cls, rows, db, clc)
    ensures Coherent(cache[cls.name := m], db, clc)
  {
    var m0 := CachedOf(cache, cls.name);
    forall k | k in m ensures m[k].cls.name == cls.name && m[k].db == db && m[k].clc == clc {
      if k !in m0 {
        assert BuiltFrom(m[k], k, cls, rows, db, clc);
      }
    }
    CacheReplace(cache, db, clc, cls.name, m);
  }

  /**
   * The cache after `all` listed `elements` for `rows`: other classes are
   * untouched, and the elements are those `ListsRows` describes.
   */
  ghost predicate CachesRows(elements: seq<Element>, rows: seq<Row>, cls: ElementClass,
                             before: map<string, map<Value, Element>>, after: map<string, map<Value, Element>>)
  {
    ListsRows(elements, rows, CachedOf(before, cls.name), CachedOf(after, cls.name)) &&
    (forall n :: n in before && n != cls.name ==> n in after && after[n] == before[n]) &&
    (forall n :: n in after ==> n in before || n == cls.name)
  }

  /** Writing back the elements the loop of `all` listed gives the cache `CachesRows` describes. */
  lemma CachesRowsWritten(elements: seq<Element>, rows: seq<Row>, cls: ElementClass,
                          before: map<string, map<Value, Element>>, m: map<Value, Element>)
    requires ListsRows(elements, rows, CachedOf(before, cls.name), m)
    requires |rows| == 0 ==> m == CachedOf(before, cls.name)
    ensures CachesRows(elements, rows, cls, before, if |rows| > 0 then before[cls.name := m] else before)
    ensures CachedOf(if |rows| > 0 then before[cls.name := m] else before, cls.name) == m
  {
  }

  /**
   * `elements` lists, for each row, the element of its id in `m`, which keeps
   * every element of `m0` and adds exactly the ids of the rows.
   */
  ghost predicate ListsRows(elements: seq<Element>, rows: seq<Row>, m0: map<Value, Element>, m: map<Value, Element>)
  {
    |elements| == |rows| &&
    (forall k :: k in m <==> k in m0 || k in KeysOf(rows)) &&
    (forall k :: k in m0 ==> m[k] == m0[k]) &&
    (forall j :: 0 <= j < |rows| ==> Key(rows[j]) in m && elements[j] == m[Key(rows[j])])
  }

  /**
   * The loop of `all`: the element cached under each row's id, or a new
   * pre-loaded one built from the row and cached.
   */
  method CacheRows(cls: ElementClass, tableOf: string -> string, rows: seq<Row>, db: Db, clc: ChildrenLoadingCache, clock: Clock,
                   m0: map<Value, Element>) returns (elements: seq<Element>, m: map<Value, Element>)
    requires db.Valid() && clc.Valid() && clc.db == db
    modifies clc
    ensures clc.Valid()
    ensures ListsRows(elements, rows, m0, m)
    ensures |rows| == 0 ==> m == m0
    ensures forall k :: k in m && k !in m0 ==>
              fresh(m[k]) && BuiltFrom(m[k], k, cls, rows, db, clc)
  {
    var keys := KeysOf(rows);
    elements, m := CacheKeyed(cls, tableOf, rows, keys, db, clc, clock, m0);
    assert forall k :: k in KeysOf(rows) <==> k in keys[..|rows|] by {
      assert keys[..|rows|] == keys;
    }
  }

  /** `e` is a pre-loaded element of class `cls`, not loaded yet, built from the row of `rows` with id `k`. */
  ghost predicate BuiltFrom(e: Element, k: Value, cls: ElementClass, rows: seq<Row>, db: Db, clc: ChildrenLoadingCache)
    reads e
  {
    e.dataArr in rows && Key(e.dataArr) == k && e.cls == cls && e.settings == StreamSettings(cls) &&
    !e.loaded && e.db == db && e.clc == clc
  }

  /**
   * After `n` rows with keys `keys`: `elements` lists the element of each
   * key in `m`, which keeps `m0` and adds only those keys.
   */
  ghost predicate KeyedList(elements: seq<Element>, keys: seq<Value>, n: nat, m0: map<Value, Element>, m: map<Value, Element>)
    requires n <= |keys|
  {
    |elements| == n &&
    (forall j :: 0 <= j < n ==> keys[j] in m && elements[j] == m[keys[j]]) &&
    (forall k :: k in m0 ==> k in m && m[k] == m0[k]) &&
    (forall k :: k in m ==> k in m0 || k in keys[..n])
  }

  lemma KeyedListHit(elements: seq<Element>, keys: seq<Value>, n: nat, m0: map<Value, Element>, m: map<Value, Element>)
    requires n < |keys| && KeyedList(elements, keys, n, m0, m) && keys[n] in m
    ensures KeyedList(elements + [m[keys[n]]], keys, n + 1, m0, m)
  {
    assert keys[..n + 1] == keys[..n] + [keys[n]];
  }

  lemma KeyedListMiss(elements: seq<Element>, keys: seq<Value>, n: nat, m0: map<Value, Element>, m: map<Value, Element>, e: Element)
    requires n < |keys| && KeyedList(elements, keys, n, m0, m) && keys[n] !in m
    ensures KeyedList(elements + [e], keys, n + 1, m0, m[keys[n] := e])
  {
    assert keys[..n + 1] == keys[..n] + [keys[n]];
  }

  /** The loop of `CacheRows`, over the rows and their precomputed keys. */
  method CacheKeyed(cls: ElementClass, tableOf: string -> string, rows: seq<Row>, keys: seq<Value>,
                    db: Db, clc: ChildrenLoadingCache, clock: Clock, m0: map<Value, Element>)
    returns (elements: seq<Element>, m: map<Value, Element>)
    requires db.Valid() && clc.Valid() && clc.db == db
    requires |keys| == |rows| && forall j :: 0 <= j < |rows| ==> keys[j] == Key(rows[j])
    modifies clc
    ensures clc.Valid() && KeyedList(elements, keys, |rows|, m0, m)
    ensures |rows| == 0 ==> m == m0
    ensures forall k :: k in m && k !in m0 ==> fresh(m[k]) && BuiltFrom(m[k], k, cls, rows, db, clc)
  {
    m := m0;
    elements := [];
    var i := 0;
    while i < |rows|
      invariant 0 <= i <= |rows|
      invariant clc.Valid() && KeyedList(elements, keys, i, m0, m)
      invariant forall k :: k in m && k !in m0 ==> fresh(m[k]) && BuiltFrom(m[k], k, cls, rows, db, clc)
    {
      var key := keys[i];
      if key in m {
        KeyedListHit(elements, keys, i, m0, m);
        elements := elements + [m[key]];
      } else {
        var e := NewElement(cls, tableOf, rows[i], StreamSettings(cls), db, clc, clock);
        KeyedListMiss(elements, keys, i, m0, m, e);
        elements := elements + [e];
        m := m[key := e];
      }
      i := i + 1;
    }
  }

  /** `$r['id']` for each row, in order. */
  function KeysOf(rows: seq<Row>): (ks: seq<Value>)
    ensures |ks| == |rows|
    ensures forall j :: 0 <= j < |rows| ==> ks[j] == Key(rows[j])
  {
    if rows == [] then [] else [Key(rows[0])] + KeysOf(rows[1..])
  }

  /** The elements cached for class `name`. */
  function CachedOf(cache: map<string, map<Value, Element>>, name: string): (m: map<Value, Element>)
    ensures m.Keys == CachedKeys(cache, name)
  {
    if name in cache then cache[name] else map[]
  }
}
