/**
 * The stream `all(..., ['stream' => true])` returns: a single-pass cursor over
 * the rows of a query that builds one pre-loaded element per row and destroys
 * the previous one as it moves on.
 */
module ElementsStream {
  import opened Values
  import opened Database
  import opened ChildrenCache
  import opened ElementData
  import opened Elements

  /** `current`: `null` before the first fetch, an element, or `false` once the rows ran out. */
  datatype Current = Pending | Holds(element: Element) | Exhausted

  /** The settings each streamed element is built with: the class's table, pre-loaded. */
  function StreamSettings(cls: ElementClass): Settings
  {
    Settings(cls.table, "id", true, map[], None)
  }

  /** `new $element($data, $settings)`, seen from outside: a valid element that has not loaded yet. */
  method NewElement(cls: ElementClass, tableOf: string -> string, data: Row, settings: Settings,
                    db: Db, clc: ChildrenLoadingCache, clock: Clock) returns (e: Element)
    requires db.Valid() && clc.Valid() && clc.db == db
    modifies clc
    ensures clc.Valid() && fresh(e) && e.Valid()
    ensures e.dataArr == data && e.cls == cls && e.settings == settings && !e.loaded && !e.existing
    ensures e.db == db && e.clc == clc && e.tableOf == tableOf && e.clock == clock
  {
    e := new Element(cls, tableOf, data, settings, db, clc, clock);
  }

  function Min(a: nat, b: nat): nat
  {
    if a <= b then a else b
  }

  class ElementsIterator {
    const cls: ElementClass
    const tableOf: string -> string
    /** The rows of the statement, in the order it returns them. */
    const rows: seq<Row>
    const db: Db
    const clc: ChildrenLoadingCache
    const clock: Clock

    /** How many rows the statement has handed out. */
    var consumed: nat
    var cursor: nat
    var current: Current
    /** How many times `rewind` ran. */
    ghost var rewinds: nat

    /**
     * The elements can be built, and `current` reflects the fetches so far:
     * one per `rewind` and one per `next`, the first `|rows|` of which return a row.
     */
    ghost predicate Valid()
      reads this, db, clc
    {
      db.Valid() && clc.Valid() && clc.db == db &&
      consumed == Min(cursor + rewinds, |rows|) &&
      (current.Pending? <==> cursor + rewinds == 0) &&
      (current.Exhausted? <==> cursor + rewinds > |rows|)
    }

    /** `new ElementsIterator(element, q, model)`. */
    constructor (cls: ElementClass, tableOf: string -> string, rows: seq<Row>, db: Db, clc: ChildrenLoadingCache, clock: Clock)
      requires db.Valid() && clc.Valid() && clc.db == db
      ensures Valid()
      ensures this.cls == cls && this.tableOf == tableOf && this.rows == rows
      ensures this.db == db && this.clc == clc && this.clock == clock
      ensures cursor == 0 && current == Pending && consumed == 0 && rewinds == 0
    {
      this.cls := cls;
      this.tableOf := tableOf;
      this.rows := rows;
      this.db := db;
      this.clc := clc;
      this.clock := clock;
      consumed := 0;
      cursor := 0;
      current := Pending;
      rewinds := 0;
    }

    /**
     * `fetchNext`: the next row becomes a new pre-loaded element, or `current`
     * becomes `false` when the statement has no more rows.
     */
    method FetchNext()
      requires db.Valid() && clc.Valid() && clc.db == db
      requires consumed <= |rows|
      modifies this`consumed, this`current, clc
      ensures clc.Valid()
      ensures old(consumed) < |rows| ==>
                consumed == old(consumed) + 1 && current.Holds? && fresh(current.element) &&
                current.element.dataArr == rows[old(consumed)] && current.element.cls == cls &&
                current.element.settings == StreamSettings(cls) && !current.element.loaded
      ensures old(consumed) == |rows| ==> consumed == old(consumed) && current == Exhausted && clc.buckets == old(clc.buckets)
    {
      if consumed < |rows| {
        var e := NewElement(cls, tableOf, rows[consumed], StreamSettings(cls), db, clc, clock);
        consumed := consumed + 1;
        current := Holds(e);
      } else {
        current := Exhausted;
      }
    }

    /** `rewind`: fetches without resetting the cursor, so a second pass does not start over. */
    method Rewind()
      requires Valid()
      modifies this`consumed, this`current, this`rewinds, clc
      ensures Valid()
      ensures cursor == old(cursor) && rewinds == old(rewinds) + 1
      ensures old(consumed) < |rows| ==> current.Holds? && current.element.dataArr == rows[old(consumed)]
      ensures old(consumed) == |rows| ==> current == Exhausted
    {
      FetchNext();
      rewinds := rewinds + 1;
    }

    /** `next`: destroys the element it held, moves the cursor one on and fetches. */
    method Next()
      requires Valid()
      modifies this`consumed, this`current, this`cursor, clc
      modifies if current.Holds? then {current.element} else {}
      ensures Valid()
      ensures cursor == old(cursor) + 1 && rewinds == old(rewinds)
      ensures old(current).Holds? ==> old(current).element.destroyed && old(current).element.dataArr == map[]
      ensures old(consumed) < |rows| ==> current.Holds? && current.element.dataArr == rows[old(consumed)]
      ensures old(consumed) == |rows| ==> current == Exhausted
    {
      if current.Holds? {
        current.element.Destroy();
        current := Pending;
      }
      cursor := cursor + 1;
      FetchNext();
    }

    /**
     * `valid`: true while `current` is an element or still `null`; false
     * exactly when the last fetch found no row. In a `foreach`, which rewinds
     * once, that is while the cursor indexes a row.
     */
    method IsValid() returns (b: bool)
      requires Valid()
      ensures b <==> !current.Exhausted?
      ensures b <==> cursor + rewinds <= |rows|
      ensures rewinds == 1 ==> (b <==> cursor < |rows|)
    {
      b := current.Holds? || current.Pending?;
    }

    /** `key`: the cursor, which counts the calls to `next`. */
    function Key(): (k: nat)
      reads this, db, clc
      requires Valid()
      ensures k == cursor
      ensures rewinds == 1 && current.Holds? ==> k < |rows| && consumed == k + 1
    {
      cursor
    }

    /** `current`. */
    function CurrentElement(): (e: Option<Element>)
      reads this, db, clc
      requires Valid()
      ensures e.Some? <==> 0 < cursor + rewinds <= |rows|
    {
      if current.Holds? then Some(current.element) else None
    }

    /**
     * `count`: the number of rows of the statement, whatever the cursor: the
     * rows handed out never exceed it, and once `current` is `false` they are all of it.
     */
    function Count(): (n: nat)
      reads this, db, clc
      requires Valid()
      ensures consumed <= n
      ensures current.Exhausted? ==> n == consumed
      ensures rewinds == 1 ==> (cursor < n <==> !current.Exhausted?)
    {
      |rows|
    }
  }
}
