/**
 * The children loading cache: elements register their id against the
 * (child table, link field) pair they will read children from, and the first
 * read of any of them loads the children of every pending id with one query.
 */
module ChildrenCache {
  import opened Values
  import opened Database

  /** The key a result row is stored under: `$results[$r['id']]`. */
  function Key(r: Row): Value
  {
    ArrayKey(RowId(r))
  }

  /** One (table, link field) bucket. */
  datatype Bucket = Bucket(ids: seq<Value>, results: seq<Row>, hasToLoad: seq<Value>)

  const NewBucket: Bucket := Bucket([], [], [])

  predicate NoDup(s: seq<Value>)
  {
    forall i, j :: 0 <= i < j < |s| ==> s[i] != s[j]
  }

  /** No two result rows share a key. */
  predicate KeysUnique(s: seq<Row>)
  {
    forall i, j :: 0 <= i < j < |s| ==> Key(s[i]) != Key(s[j])
  }

  /** The ids have no duplicates and the pending ids are among them. */
  predicate IdsWellFormed(b: Bucket)
  {
    NoDup(b.ids) && NoDup(b.hasToLoad) && (forall v :: v in b.hasToLoad ==> v in b.ids)
  }

  predicate WellFormed(b: Bucket)
  {
    IdsWellFormed(b) && KeysUnique(b.results)
  }

  /** `registerChildrenLoading` on one bucket: a new id becomes registered and pending. */
  function Register(b: Bucket, id: Value): (r: Bucket)
    ensures IdsWellFormed(b) ==> IdsWellFormed(r)
    ensures r.results == b.results
    ensures forall v :: v in r.ids <==> v in b.ids || v == id
    ensures id in b.ids ==> r == b
    ensures id !in b.ids ==> r.ids == b.ids + [id] && r.hasToLoad == b.hasToLoad + [id]
  {
    if id in b.ids then b else b.(ids := b.ids + [id], hasToLoad := b.hasToLoad + [id])
  }

  /** `$results[Key(r)] = r`: overwrite in place, or append. */
  function PutRow(s: seq<Row>, r: Row): seq<Row>
  {
    if s == [] then [r]
    else if Key(s[0]) == Key(r) then [r] + s[1..]
    else [s[0]] + PutRow(s[1..], r)
  }

  /** The foreach that merges fetched rows into the results, one row after the other. */
  function Merge(s: seq<Row>, batch: seq<Row>): seq<Row>
    decreases |batch|
  {
    if batch == [] then s else PutRow(Merge(s, batch[..|batch| - 1]), batch[|batch| - 1])
  }

  /** The query `loadChildrenLoadingCache` issues. */
  datatype Query = NoQuery | EqQuery(field: string, v: Value) | InQuery(field: string, vs: seq<Value>)

  function BatchQuery(b: Bucket, f: string): (q: Query)
    ensures q.NoQuery? <==> b.hasToLoad == []
    ensures q.EqQuery? <==> |b.hasToLoad| == 1
    ensures q.EqQuery? ==> q == EqQuery(f, b.hasToLoad[0])
    ensures q.InQuery? ==> q == InQuery(f, b.hasToLoad) && |b.hasToLoad| > 1
  {
    if |b.hasToLoad| == 0 then NoQuery
    else if |b.hasToLoad| == 1 then EqQuery(f, b.hasToLoad[0])
    else InQuery(f, b.hasToLoad)
  }

  function RunQuery(rows: seq<Row>, q: Query): seq<Row>
  {
    match q
    case NoQuery => []
    case EqQuery(f, v) => FilterEq(rows, f, v)
    case InQuery(f, vs) => FilterIn(rows, f, vs)
  }

  /** Whichever form it takes, the batch query selects the rows linked to a pending id. */
  lemma BatchSelectsPending(b: Bucket, f: string, rows: seq<Row>)
    ensures RunQuery(rows, BatchQuery(b, f)) == FilterIn(rows, f, b.hasToLoad)
  {
    if |b.hasToLoad| == 0 {
      FilterMember(rows, map[], f, VNull, []);
      assert FilterIn(rows, f, []) == [];
    } else if |b.hasToLoad| == 1 {
      assert b.hasToLoad == [b.hasToLoad[0]];
      FilterInSingle(rows, f, b.hasToLoad[0]);
    }
  }

  /** `loadChildrenLoadingCache` on one bucket whose child table holds `rows`. */
  function LoadBucket(b: Bucket, f: string, rows: seq<Row>): Bucket
  {
    if b.hasToLoad == [] then b
    else Bucket(b.ids, Merge(b.results, RunQuery(rows, BatchQuery(b, f))), [])
  }

  /** The `Db_changedTable` reset of one bucket. */
  function Reset(b: Bucket): (r: Bucket)
    ensures r.ids == b.ids && r.results == [] && r.hasToLoad == b.ids
  {
    Bucket(b.ids, [], b.ids)
  }

  /** What `loadFromChildrenLoadingCache` returns once the bucket is loaded. */
  function Children(b: Bucket, f: string, p: Value): seq<Row>
  {
    FilterEq(b.results, f, p)
  }

  predicate Loaded(b: Bucket, p: Value)
  {
    p in b.ids && p !in b.hasToLoad
  }

  /** The child table never stores two rows under the same key. */
  predicate KeyedTable(rows: seq<Row>)
  {
    forall i, j :: 0 <= i < |rows| && 0 <= j < |rows| && Key(rows[i]) == Key(rows[j]) ==> i == j
  }

  /**
   * The bucket agrees with the child table: every cached row is a row of the
   * table linked to a loaded id, and each loaded id sees exactly the rows a
   * direct equality filter on the table gives.
   */
  predicate Consistent(b: Bucket, f: string, rows: seq<Row>)
  {
    WellFormed(b) &&
    (forall r :: r in b.results ==> r in rows && Loaded(b, Get(r, f))) &&
    (forall p :: p in b.ids && p !in b.hasToLoad ==> FilterEq(b.results, f, p) == FilterEq(rows, f, p))
  }

  // ---------------------------------------------------------------------------
  // Merging rows none of which is cached yet

  lemma {:induction false} PutRowFresh(s: seq<Row>, r: Row)
    requires forall i :: 0 <= i < |s| ==> Key(s[i]) != Key(r)
    ensures PutRow(s, r) == s + [r]
  {
    if s != [] {
      PutRowFresh(s[1..], r);
      assert s == [s[0]] + s[1..];
    }
  }

  /** Fetched rows with new, distinct keys are appended in the order they were fetched. */
  lemma {:induction false} MergeFresh(s: seq<Row>, batch: seq<Row>)
    requires KeysUnique(batch)
    requires forall i, j :: 0 <= i < |s| && 0 <= j < |batch| ==> Key(s[i]) != Key(batch[j])
    ensures Merge(s, batch) == s + batch
    decreases |batch|
  {
    if batch != [] {
      var n := |batch| - 1;
      var init := batch[..n];
      assert forall j :: 0 <= j < |init| ==> init[j] == batch[j];
      MergeFresh(s, init);
      var t := s + init;
      forall i | 0 <= i < |t|
        ensures Key(t[i]) != Key(batch[n])
      {
        if i < |s| {
          assert t[i] == s[i];
        } else {
          assert t[i] == batch[i - |s|];
        }
      }
      PutRowFresh(t, batch[n]);
      assert init + [batch[n]] == batch;
    }
  }

  /** Rows of a keyed table, filtered, still have distinct keys. */
  lemma {:induction false} FilterInKeysUnique(rows: seq<Row>, f: string, vs: seq<Value>)
    requires KeyedTable(rows)
    ensures KeysUnique(FilterIn(rows, f, vs))
  {
    if rows != [] {
      var tail := rows[1..];
      assert KeyedTable(tail) by {
        forall i, j | 0 <= i < |tail| && 0 <= j < |tail| && Key(tail[i]) == Key(tail[j])
          ensures i == j
        {
          assert tail[i] == rows[i + 1] && tail[j] == rows[j + 1];
        }
      }
      FilterInKeysUnique(tail, f, vs);
      var rest := FilterIn(tail, f, vs);
      FilterMember(tail, map[], f, VNull, vs);
      forall j | 0 <= j < |rest|
        ensures Key(rows[0]) != Key(rest[j])
      {
        assert rest[j] in tail;
        var k :| 0 <= k < |tail| && tail[k] == rest[j];
        assert tail[k] == rows[k + 1];
      }
    }
  }

  // ---------------------------------------------------------------------------
  // The bucket invariant

  /** Registering an id keeps the bucket in agreement with the table. */
  lemma RegisterConsistent(b: Bucket, f: string, rows: seq<Row>, id: Value)
    requires Consistent(b, f, rows)
    ensures Consistent(Register(b, id), f, rows)
  {
  }

  /** A reset bucket agrees with any table: nothing is cached and every id is pending. */
  lemma ResetConsistent(b: Bucket, f: string, rows: seq<Row>)
    requires WellFormed(b)
    ensures Consistent(Reset(b), f, rows)
  {
  }

  /** A sequence with no member is empty. */
  lemma NoMemberEmpty(s: seq<Row>)
    ensures (forall r :: r !in s) ==> s == []
  {
    if s != [] {
      assert s[0] in s;
    }
  }

  /** The rows linked to pending ids are never among the cached rows' keys. */
  lemma BatchIsFresh(b: Bucket, f: string, rows: seq<Row>)
    requires Consistent(b, f, rows) && KeyedTable(rows)
    ensures forall i, j :: 0 <= i < |b.results| && 0 <= j < |FilterIn(rows, f, b.hasToLoad)| ==>
              Key(b.results[i]) != Key(FilterIn(rows, f, b.hasToLoad)[j])
  {
    var h := b.hasToLoad;
    var batch := FilterIn(rows, f, h);
    FilterMember(rows, map[], f, VNull, h);
    forall i, j | 0 <= i < |b.results| && 0 <= j < |batch|
      ensures Key(b.results[i]) != Key(batch[j])
    {
      var r0, r1 := b.results[i], batch[j];
      assert r0 in b.results && r1 in batch;
      assert Get(r0, f) !in h && Get(r1, f) in h;
      var i0 :| 0 <= i0 < |rows| && rows[i0] == r0;
      var i1 :| 0 <= i1 < |rows| && rows[i1] == r1;
    }
  }

  lemma ConcatKeysUnique(a: seq<Row>, c: seq<Row>)
    requires KeysUnique(a) && KeysUnique(c)
    requires forall i, j :: 0 <= i < |a| && 0 <= j < |c| ==> Key(a[i]) != Key(c[j])
    ensures KeysUnique(a + c)
  {
    var s := a + c;
    forall i, j | 0 <= i < j < |s|
      ensures Key(s[i]) != Key(s[j])
    {
      if j < |a| {
        assert s[i] == a[i] && s[j] == a[j];
      } else if i >= |a| {
        assert s[i] == c[i - |a|] && s[j] == c[j - |a|];
      } else {
        assert s[i] == a[i] && s[j] == c[j - |a|];
      }
    }
  }

  /** After the batch, a loaded id's children are those of the table. */
  lemma LoadedAfterBatch(b: Bucket, f: string, rows: seq<Row>, p: Value)
    requires Consistent(b, f, rows)
    requires p in b.ids
    ensures FilterEq(b.results + FilterIn(rows, f, b.hasToLoad), f, p) == FilterEq(rows, f, p)
  {
    var h := b.hasToLoad;
    FilterEqConcat(b.results, FilterIn(rows, f, h), f, p);
    FilterEqOfIn(rows, f, h, p);
    if p in h {
      FilterMember(b.results, map[], f, p, []);
      NoMemberEmpty(FilterEq(b.results, f, p));
    }
  }

  /** The rows the batch merges are rows of the table linked to a by now loaded id. */
  lemma BatchRowsLoaded(b: Bucket, f: string, rows: seq<Row>)
    requires Consistent(b, f, rows)
    ensures forall r :: r in b.results + FilterIn(rows, f, b.hasToLoad) ==> r in rows && Get(r, f) in b.ids
  {
    FilterMember(rows, map[], f, VNull, b.hasToLoad);
  }

  /**
   * Loading a consistent bucket empties `hasToLoad`, keeps the earlier results
   * as a prefix of the new ones, and keeps the bucket consistent.
   */
  lemma LoadConsistent(b: Bucket, f: string, rows: seq<Row>)
    requires Consistent(b, f, rows) && KeyedTable(rows)
    ensures var nb := LoadBucket(b, f, rows);
            Consistent(nb, f, rows) && nb.ids == b.ids && nb.hasToLoad == [] &&
            |b.results| <= |nb.results| && nb.results[..|b.results|] == b.results
  {
    if b.hasToLoad != [] {
      var batch := FilterIn(rows, f, b.hasToLoad);
      BatchSelectsPending(b, f, rows);
      FilterInKeysUnique(rows, f, b.hasToLoad);
      BatchIsFresh(b, f, rows);
      MergeFresh(b.results, batch);
      var nb := LoadBucket(b, f, rows);
      assert nb.results == b.results + batch;
      assert nb.results[..|b.results|] == b.results;
      ConcatKeysUnique(b.results, batch);
      BatchRowsLoaded(b, f, rows);
      forall p | p in nb.ids
        ensures FilterEq(nb.results, f, p) == FilterEq(rows, f, p)
      {
        LoadedAfterBatch(b, f, rows, p);
      }
    }
  }

  /**
   * What the cache promises: once loaded, the children an id registered in
   * the bucket reads are exactly the rows a direct `WHERE f = p` query returns,
   * whatever the order of registration and however the batches fell.
   */
  lemma LoadedChildrenAreDirect(b: Bucket, f: string, rows: seq<Row>, p: Value)
    requires Consistent(b, f, rows) && KeyedTable(rows)
    requires p in b.ids
    ensures Children(LoadBucket(b, f, rows), f, p) == FilterEq(rows, f, p)
  {
    LoadConsistent(b, f, rows);
  }

  /** An id that never registered in the bucket reads no children at all. */
  lemma UnregisteredReadsNothing(b: Bucket, f: string, rows: seq<Row>, p: Value)
    requires Consistent(b, f, rows) && KeyedTable(rows)
    requires p !in b.ids
    ensures Children(LoadBucket(b, f, rows), f, p) == []
  {
    LoadConsistent(b, f, rows);
    var nb := LoadBucket(b, f, rows);
    FilterMember(nb.results, map[], f, p, []);
    NoMemberEmpty(Children(nb, f, p));
  }

  /** The batch for one pending id is the equality query, for several the `IN` query. */
  lemma SinglePendingUsesEquality(b: Bucket, f: string, rows: seq<Row>)
    requires |b.hasToLoad| == 1
    ensures RunQuery(rows, BatchQuery(b, f)) == FilterEq(rows, f, b.hasToLoad[0])
    ensures RunQuery(rows, BatchQuery(b, f)) == FilterIn(rows, f, b.hasToLoad)
  {
    BatchSelectsPending(b, f, rows);
  }

  // ---------------------------------------------------------------------------
  // The cache itself

  type Buckets = map<string, map<string, Bucket>>

  /** The buckets after `registerChildrenLoading(t, f, id)`: the bucket is created when missing. */
  function RegisterIn(bs: Buckets, t: string, f: string, id: Value): (r: Buckets)
    ensures r.Keys == bs.Keys + {t}
    ensures forall u :: u in bs && u != t ==> r[u] == bs[u]
  {
    var table := if t in bs then bs[t] else map[];
    var b := if f in table then table[f] else NewBucket;
    bs[t := table[f := Register(b, id)]]
  }

  /** `children_loading[table][parent_field]` together with the database it reads. */
  class ChildrenLoadingCache {
    var buckets: Buckets
    const db: Db

    ghost predicate Valid()
      reads this
    {
      forall t, f :: t in buckets && f in buckets[t] ==> IdsWellFormed(buckets[t][f])
    }

    constructor (db: Db)
      ensures Valid() && buckets == map[] && this.db == db
    {
      this.db := db;
      buckets := map[];
    }

    function BucketOf(t: string, f: string): Option<Bucket>
      reads this
    {
      if t in buckets && f in buckets[t] then Some(buckets[t][f]) else None
    }

    /** `registerChildrenLoading(table, parent_field, id)`. */
    method RegisterChildrenLoading(t: string, f: string, id: Value) returns (ok: bool)
      requires Valid()
      modifies this
      ensures Valid() && ok
      ensures buckets == RegisterIn(old(buckets), t, f, id)
    {
      var table := if t in buckets then buckets[t] else map[];
      var b := if f in table then table[f] else NewBucket;
      if id !in b.ids {
        b := b.(ids := b.ids + [id], hasToLoad := b.hasToLoad + [id]);
      }
      buckets := buckets[t := table[f := b]];
      ok := true;
    }

    /** `loadChildrenLoadingCache(table, parent_field)`: false for an unknown bucket. */
    method LoadChildrenLoadingCache(t: string, f: string) returns (ok: bool)
      requires Valid()
      modifies this
      ensures Valid()
      ensures ok <==> old(BucketOf(t, f)).Some?
      ensures ok ==> buckets == old(buckets)[t := old(buckets)[t][f := LoadBucket(old(buckets)[t][f], f, db.Rows(t))]]
      ensures !ok ==> buckets == old(buckets)
    {
      if !(t in buckets && f in buckets[t]) {
        return false;
      }
      var b := buckets[t][f];
      if |b.hasToLoad| == 0 {
        assert buckets[t][f := b] == buckets[t];
        assert buckets[t := buckets[t]] == buckets;
        return true;
      }
      var q: seq<Row>;
      if |b.hasToLoad| == 1 {
        q := db.SelectAll(t, map[f := b.hasToLoad[0]]);
        FilterWhereSingle(db.Rows(t), f, b.hasToLoad[0]);
      } else {
        q := FilterIn(db.Rows(t), f, b.hasToLoad);
      }
      assert q == RunQuery(db.Rows(t), BatchQuery(b, f));
      var results := MergeAll(b.results, q);
      buckets := buckets[t := buckets[t][f := Bucket(b.ids, results, [])]];
      return true;
    }

    /** The loop that stores each fetched row under its primary key. */
    static method MergeAll(results: seq<Row>, q: seq<Row>) returns (out: seq<Row>)
      ensures out == Merge(results, q)
    {
      out := results;
      var i := 0;
      while i < |q|
        invariant 0 <= i <= |q|
        invariant out == Merge(results, q[..i])
      {
        out := PutRow(out, q[i]);
        assert q[..i + 1][..i] == q[..i];
        i := i + 1;
      }
      assert q[..|q|] == q;
    }

    /** `loadFromChildrenLoadingCache(table, parent_field, parent)`. */
    method LoadFromChildrenLoadingCache(t: string, f: string, p: Value) returns (rows: seq<Row>)
      requires Valid()
      modifies this
      ensures Valid()
      ensures old(BucketOf(t, f)).None? ==> rows == [] && buckets == old(buckets)
      ensures old(BucketOf(t, f)).Some? ==>
                var nb := LoadBucket(old(buckets)[t][f], f, db.Rows(t));
                buckets == old(buckets)[t := old(buckets)[t][f := nb]]
      ensures old(BucketOf(t, f)).Some? ==> rows == Children(LoadBucket(old(buckets)[t][f], f, db.Rows(t)), f, p)
    {
      if !(t in buckets && f in buckets[t]) {
        return [];
      }
      if |buckets[t][f].hasToLoad| > 0 {
        var _ := LoadChildrenLoadingCache(t, f);
      } else {
        assert buckets[t][f := buckets[t][f]] == buckets[t];
        assert buckets[t := buckets[t]] == buckets;
      }
      ghost var loaded := buckets;
      assert loaded == old(buckets)[t := old(buckets)[t][f := LoadBucket(old(buckets)[t][f], f, db.Rows(t))]];
      rows := ChildrenIn(buckets[t][f].results, f, p);
    }

    /** The loop that picks the stored rows whose field `f` equals `p`. */
    static method ChildrenIn(results: seq<Row>, f: string, p: Value) returns (rows: seq<Row>)
      ensures rows == FilterEq(results, f, p)
    {
      rows := [];
      var i := 0;
      while i < |results|
        invariant 0 <= i <= |results|
        invariant rows == FilterEq(results[..i], f, p)
      {
        FilterEqConcat(results[..i], [results[i]], f, p);
        assert results[..i + 1] == results[..i] + [results[i]];
        if Get(results[i], f) == p {
          rows := rows + [results[i]];
        }
        i := i + 1;
      }
      assert results[..|results|] == results;
    }

    /** The `Db_changedTable` handler: every bucket of table `t` is reset, nothing else changes. */
    method TableChanged(t: string)
      requires Valid()
      modifies this
      ensures Valid()
      ensures t !in old(buckets) ==> buckets == old(buckets)
      ensures t in old(buckets) ==>
                buckets == old(buckets)[t := map f | f in old(buckets)[t] :: Reset(old(buckets)[t][f])]
    {
      if t !in buckets {
        return;
      }
      var table := buckets[t];
      var pending := table.Keys;
      var done: map<string, Bucket> := map f | f in table && f !in pending :: Reset(table[f]);
      while pending != {}
        invariant pending <= table.Keys
        invariant done == map f | f in table && f !in pending :: Reset(table[f])
        decreases pending
      {
        var f :| f in pending;
        done := done[f := Reset(table[f])];
        pending := pending - {f};
      }
      assert done == map f | f in table :: Reset(table[f]);
      buckets := buckets[t := done];
    }
  }
}
