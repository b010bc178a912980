/**
 * The two maintenance passes of the module's configuration: `makeCache`,
 * which completes the cached elements tree (each element's back-reference
 * into its parent's children, and the controller→element map), and
 * `cleanUp`, which renumbers every custom order column 1, 2, 3, … within
 * each partition.
 */
module Config {
  import opened Values
  import opened Database

  // ---------------------------------------------------------------------
  // makeCache
  // ---------------------------------------------------------------------

  /**
   * An element's `parent` entry: the parent element, and the key under which
   * the parent lists this element among its children (`false` while unknown).
   */
  datatype ParentRef = ParentRef(element: string, children: Option<string>)

  /**
   * The part of an element's tree data that `makeCache` reads and writes: its
   * controller (`false` when none), its parent entry (`false` when none) and
   * its children, keyed by relationship name, each naming the child element.
   */
  datatype TreeEntry = TreeEntry(controller: Option<string>, parent: Option<ParentRef>, children: Dict<string>)

  /** `$elements`: element name → tree data, in declaration order. */
  type Tree = Dict<TreeEntry>

  /** `$elements[$name]['children']`, or None when `$elements[$name]` is not set. */
  function ChildrenOf(tree: Tree, name: string): (r: Option<Dict<string>>)
    ensures r.Some? <==> name in DictKeys(tree)
  {
    if tree == [] then None
    else if tree[0].0 == name then Some(tree[0].1.children)
    else ChildrenOf(tree[1..], name)
  }

  /** Two trees with the same names and the same children, position by position. */
  predicate SameShape(a: Tree, b: Tree)
  {
    |a| == |b| && forall j :: 0 <= j < |a| ==> a[j].0 == b[j].0 && a[j].1.children == b[j].1.children
  }

  lemma {:induction false} SameShapeChildren(a: Tree, b: Tree, name: string)
    requires SameShape(a, b)
    ensures ChildrenOf(a, name) == ChildrenOf(b, name)
  {
    if a != [] {
      assert SameShape(a[1..], b[1..]) by {
        forall j | 0 <= j < |a| - 1
          ensures a[1..][j].0 == b[1..][j].0 && a[1..][j].1.children == b[1..][j].1.children
        {
          assert a[1..][j] == a[j + 1] && b[1..][j] == b[j + 1];
        }
      }
      SameShapeChildren(a[1..], b[1..], name);
    }
  }

  /** The `found`/`unique` pair of the scan over a parent's children. */
  datatype Scan = Scan(found: Option<string>, unique: bool)

  /** One child `k => child` of the scan for element `el`. */
  function ScanStep(s: Scan, k: string, child: string, el: string): Scan
  {
    if child != el then s
    else if s.found.Some? && Named(s.found.value) then Scan(s.found, false)
    else Scan(Some(k), s.unique)
  }

  /** The scan over `children`, starting from `found = false, unique = true`. */
  function ScanOf(children: Dict<string>, el: string): Scan
  {
    if children == [] then Scan(None, true)
    else
      var last := children[|children| - 1];
      ScanStep(ScanOf(children[..|children| - 1], el), last.0, last.1, el)
  }

  /** The keys of the children that name element `el`, in order. */
  function MatchingKeys(children: Dict<string>, el: string): (ks: seq<string>)
    ensures |ks| <= |children|
  {
    if children == [] then []
    else
      var last := children[|children| - 1];
      MatchingKeys(children[..|children| - 1], el) + (if last.1 == el then [last.0] else [])
  }

  /** Every child key is a truthy PHP string (a real relationship name). */
  predicate TruthyKeys(children: Dict<string>)
  {
    forall j :: 0 <= j < |children| ==> Named(children[j].0)
  }

  /**
   * With truthy keys the scan finds the first matching key, and stays unique
   * exactly while at most one child matches.
   */
  lemma {:induction false} ScanFindsFirst(children: Dict<string>, el: string)
    requires TruthyKeys(children)
    ensures var ks := MatchingKeys(children, el);
            ScanOf(children, el) == Scan(if |ks| > 0 then Some(ks[0]) else None, |ks| <= 1)
    ensures forall k :: k in MatchingKeys(children, el) ==> Named(k)
  {
    if children != [] {
      var init := children[..|children| - 1];
      assert TruthyKeys(init) by {
        forall j | 0 <= j < |init| ensures Named(init[j].0) {
          assert init[j] == children[j];
        }
      }
      ScanFindsFirst(init, el);
      assert Named(children[|children| - 1].0);
    }
  }

  /** `$found` is truthy and `$unique` still holds: the back-reference can be written. */
  predicate Resolves(s: Scan)
  {
    s.found.Some? && Named(s.found.value) && s.unique
  }

  /**
   * The guard of the back-reference: a parent is declared, names a truthy
   * element that is in the tree, and `parent.children` is not set yet.
   */
  predicate SeeksParent(tree: Tree, e: TreeEntry)
  {
    e.parent.Some? && Named(e.parent.value.element) &&
    !(e.parent.value.children.Some? && Named(e.parent.value.children.value)) &&
    ChildrenOf(tree, e.parent.value.element).Some?
  }

  /** Element `el`'s entry once `makeCache` has looked for its back-reference. */
  function Resolved(tree: Tree, el: string, e: TreeEntry): TreeEntry
  {
    if SeeksParent(tree, e) then
      var s := ScanOf(ChildrenOf(tree, e.parent.value.element).value, el);
      if Resolves(s) then e.(parent := Some(e.parent.value.(children := s.found))) else e
    else e
  }

  /** The elements declaring the (truthy) controller `c`, in order. */
  function Declarers(tree: Tree, c: string): (els: seq<string>)
    ensures |els| <= |tree|
  {
    if tree == [] then []
    else
      var last := tree[|tree| - 1];
      Declarers(tree[..|tree| - 1], c) + (if Named(c) && last.1.controller == Some(c) then [last.0] else [])
  }

  /** `$controllers` after the entries of `tree`: `false` (None) marks an ambiguous controller. */
  function ControllerMap(tree: Tree): map<string, Option<string>>
  {
    if tree == [] then map[]
    else
      var m := ControllerMap(tree[..|tree| - 1]);
      var last := tree[|tree| - 1];
      match last.1.controller
      case Some(c) =>
        if !Named(c) then m
        else if c !in m then m[c := Some(last.0)]
        else m[c := None]
      case None => m
  }

  /**
   * A controller is in the map exactly when some element declares it; it
   * maps to that element when only one does, and to `false` when two or more do.
   */
  lemma {:induction false} ControllerMapSpec(tree: Tree, c: string)
    ensures c in ControllerMap(tree) <==> |Declarers(tree, c)| > 0
    ensures c in ControllerMap(tree) ==>
              ControllerMap(tree)[c] == (if |Declarers(tree, c)| == 1 then Some(Declarers(tree, c)[0]) else None)
  {
    if tree != [] {
      ControllerMapSpec(tree[..|tree| - 1], c);
    }
  }

  /**
   * With truthy child keys, the back-reference is written exactly when the
   * guard holds and exactly one of the parent's children names this element,
   * and it is that child's key. Nothing else of the entry changes.
   */
  lemma BackReferenceSpec(tree: Tree, el: string, e: TreeEntry)
    requires SeeksParent(tree, e) ==> TruthyKeys(ChildrenOf(tree, e.parent.value.element).value)
    ensures var r := Resolved(tree, el, e);
            r.controller == e.controller && r.children == e.children &&
            (r.parent.Some? <==> e.parent.Some?) &&
            (e.parent.Some? ==> r.parent.value.element == e.parent.value.element)
    ensures !SeeksParent(tree, e) ==> Resolved(tree, el, e) == e
    ensures SeeksParent(tree, e) ==>
              var ks := MatchingKeys(ChildrenOf(tree, e.parent.value.element).value, el);
              (|ks| == 1 ==> Resolved(tree, el, e).parent.value.children == Some(ks[0])) &&
              (|ks| != 1 ==> Resolved(tree, el, e) == e)
  {
    if SeeksParent(tree, e) {
      ScanFindsFirst(ChildrenOf(tree, e.parent.value.element).value, el);
    }
  }

  /** The inner `foreach` over the parent's children. */
  method FindChild(children: Dict<string>, el: string) returns (found: Option<string>, unique: bool)
    ensures Scan(found, unique) == ScanOf(children, el)
  {
    found := None;
    unique := true;
    for i := 0 to |children|
      invariant Scan(found, unique) == ScanOf(children[..i], el)
    {
      assert children[..i + 1][..i] == children[..i];
      if children[i].1 == el {
        if found.Some? && Named(found.value) {
          unique := false;
        } else {
          found := Some(children[i].0);
        }
      }
    }
    assert children[..|children|] == children;
  }

  /** The back-reference depends on the tree only through its names and children. */
  lemma ResolvedOnShape(a: Tree, b: Tree, el: string, e: TreeEntry)
    requires SameShape(a, b)
    ensures Resolved(a, el, e) == Resolved(b, el, e)
  {
    if e.parent.Some? {
      SameShapeChildren(a, b, e.parent.value.element);
    }
  }

  /** The body of the outer `foreach` that looks for element `el`'s back-reference. */
  method BackReference(elements: Tree, el: string, data: TreeEntry) returns (entry: TreeEntry)
    ensures entry == Resolved(elements, el, data)
  {
    entry := data;
    if data.parent.Some? && Named(data.parent.value.element) &&
       !(data.parent.value.children.Some? && Named(data.parent.value.children.value)) &&
       ChildrenOf(elements, data.parent.value.element).Some?
    {
      var found, unique := FindChild(ChildrenOf(elements, data.parent.value.element).value, el);
      if found.Some? && Named(found.value) && unique {
        entry := data.(parent := Some(data.parent.value.(children := found)));
      }
    }
  }

  /**
   * `makeCache` without the file write: every entry gets its back-reference
   * as `Resolved` says, and the controller map is built.
   */
  method MakeCache(tree: Tree) returns (elements: Tree, controllers: map<string, Option<string>>)
    ensures |elements| == |tree|
    ensures forall i :: 0 <= i < |tree| ==> elements[i] == (tree[i].0, Resolved(tree, tree[i].0, tree[i].1))
    ensures controllers == ControllerMap(tree)
  {
    elements := tree;
    controllers := map[];
    for i := 0 to |tree|
      invariant SameShape(elements, tree)
      invariant forall j :: 0 <= j < i ==> elements[j] == (tree[j].0, Resolved(tree, tree[j].0, tree[j].1))
      invariant forall j :: i <= j < |tree| ==> elements[j] == tree[j]
      invariant controllers == ControllerMap(tree[..i])
    {
      var el := tree[i].0;
      var data := tree[i].1;
      var entry := BackReference(elements, el, data);
      ResolvedOnShape(elements, tree, el, data);
      elements := elements[i := (el, entry)];
      assert tree[..i + 1][..i] == tree[..i];
      if data.controller.Some? && Named(data.controller.value) {
        var c := data.controller.value;
        if c !in controllers {
          controllers := controllers[c := Some(el)];
        } else {
          controllers := controllers[c := None];
        }
      }
    }
    assert tree[..|tree|] == tree;
  }

  // ---------------------------------------------------------------------
  // cleanUp
  // ---------------------------------------------------------------------

  /** `order_by` as the tree caches it: the order column, `custom`, and `depending_on`. */
  datatype OrderBy = OrderBy(field: string, custom: bool, dependingOn: seq<string>)

  /** The part of an element's tree data `cleanUp` reads. */
  datatype CleanUpEntry = CleanUpEntry(table: Option<string>, orderBy: Option<OrderBy>, primary: string)

  /** The element has a table and a custom order column: `cleanUp` renumbers it. */
  predicate Renumbers(e: CleanUpEntry)
  {
    e.table.Some? && Named(e.table.value) && e.orderBy.Some? && e.orderBy.value.custom
  }

  /** `implode(',', [$r[$f] for each depending_on field])`. */
  function PartitionString(r: Row, deps: seq<string>): string
  {
    Join(seq(|deps|, j requires 0 <= j < |deps| => ToStr(Get(r, deps[j]))), ',')
  }

  function PartitionStrings(rows: seq<Row>, deps: seq<string>): (pss: seq<string>)
    ensures |pss| == |rows|
    ensures forall i :: 0 <= i < |rows| ==> pss[i] == PartitionString(rows[i], deps)
  {
    seq(|rows|, i requires 0 <= i < |rows| => PartitionString(rows[i], deps))
  }

  /** `$lastParent` and `$currentOrder`. */
  datatype Counter = Counter(lastParent: Option<string>, current: int)

  /** One row: a truthy partition string other than the last one resets the count; then it counts one. */
  function Advance(c: Counter, ps: string): Counter
  {
    if Named(ps) && c.lastParent != Some(ps) then Counter(Some(ps), 1)
    else Counter(c.lastParent, c.current + 1)
  }

  /** The counters after the rows whose partition strings are `pss`. */
  function CounterAfter(pss: seq<string>): Counter
  {
    if pss == [] then Counter(None, 0)
    else Advance(CounterAfter(pss[..|pss| - 1]), pss[|pss| - 1])
  }

  /** The counters before any row, and after one more row. */
  lemma CounterStep(pss: seq<string>, i: nat)
    requires i < |pss|
    ensures CounterAfter(pss[..0]) == Counter(None, 0)
    ensures CounterAfter(pss[..i + 1]) == Advance(CounterAfter(pss[..i]), pss[i])
  {
    assert pss[..i + 1][..i] == pss[..i];
  }

  /** The order the pass computes for the `i`-th row of the stream. */
  function OrderAt(pss: seq<string>, i: nat): int
    requires i < |pss|
  {
    CounterAfter(pss[..i + 1]).current
  }

  /** `$v == $n` for an integer `$n`, by PHP 8's rules for null, booleans, integers and decimal strings. */
  predicate LooseEqualsInt(v: Value, n: int)
  {
    match v
    case VNull => n == 0
    case VBool(b) => b == (n != 0)
    case VInt(i) => i == n
    case VStr(s) => ParseDecimal(s) == Some(n)
  }

  /** The `i`-th row's stored order differs from the computed one: the pass updates it. */
  predicate NeedsUpdate(rows: seq<Row>, o: OrderBy, i: nat)
    requires i < |rows|
  {
    !LooseEqualsInt(Get(rows[i], o.field), OrderAt(PartitionStrings(rows, o.dependingOn), i))
  }

  /** The stored table after the updates the pass issues for the first `i` rows of the stream `rows`. */
  function Applied(stored: seq<Row>, rows: seq<Row>, o: OrderBy, primary: string, i: nat): (out: seq<Row>)
    requires i <= |rows|
    ensures |out| == |stored|
  {
    if i == 0 then stored
    else
      var prev := Applied(stored, rows, o, primary, i - 1);
      if NeedsUpdate(rows, o, i - 1) then
        UpdateWhere(prev, map[primary := Get(rows[i - 1], primary)],
                    map[o.field := VInt(OrderAt(PartitionStrings(rows, o.dependingOn), i - 1))])
      else prev
  }

  lemma AppliedStep(stored: seq<Row>, rows: seq<Row>, o: OrderBy, primary: string, i: nat, n: int)
    requires i < |rows| && n == OrderAt(PartitionStrings(rows, o.dependingOn), i)
    ensures Applied(stored, rows, o, primary, i + 1) ==
              if LooseEqualsInt(Get(rows[i], o.field), n) then Applied(stored, rows, o, primary, i)
              else UpdateWhere(Applied(stored, rows, o, primary, i), map[primary := Get(rows[i], primary)], map[o.field := VInt(n)])
  {
  }

  /** The reference result: every row carries its computed order; rows that already agree loosely are kept. */
  function Renumbered(rows: seq<Row>, o: OrderBy): (out: seq<Row>)
    ensures |out| == |rows|
    ensures forall i :: 0 <= i < |rows| ==> out[i] == RenumberedRow(rows, o, i)
  {
    seq(|rows|, i requires 0 <= i < |rows| => RenumberedRow(rows, o, i))
  }

  /** The `i`-th row of `Renumbered`. */
  function RenumberedRow(rows: seq<Row>, o: OrderBy, i: nat): Row
    requires i < |rows|
  {
    if NeedsUpdate(rows, o, i) then rows[i] + map[o.field := VInt(OrderAt(PartitionStrings(rows, o.dependingOn), i))]
    else rows[i]
  }

  /** The primary key of each row. */
  function IdsOf(rows: seq<Row>, primary: string): (ids: seq<Value>)
    ensures |ids| == |rows|
  {
    seq(|rows|, i requires 0 <= i < |rows| => Get(rows[i], primary))
  }

  /** The primary key tells the rows apart. */
  predicate DistinctIds(rows: seq<Row>, primary: string)
  {
    var ids := IdsOf(rows, primary);
    forall i, j :: 0 <= i < j < |ids| ==> ids[i] != ids[j]
  }

  lemma {:induction false} FilterWhereEverything(rows: seq<Row>)
    ensures FilterWhere(rows, map[]) == rows
  {
    if rows != [] {
      FilterWhereEverything(rows[1..]);
      assert [rows[0]] + rows[1..] == rows;
    }
  }

  /** Updating by a primary key the rows tell apart changes exactly the row that has it. */
  lemma UpdateById(prev: seq<Row>, rows: seq<Row>, primary: string, j: nat, changes: Row)
    requires |prev| == |rows| && j < |rows| && DistinctIds(rows, primary)
    requires forall k :: 0 <= k < |rows| ==> Get(prev[k], primary) == Get(rows[k], primary)
    ensures forall k :: 0 <= k < |rows| ==>
              UpdateWhere(prev, map[primary := Get(rows[j], primary)], changes)[k] ==
              (if k == j then prev[k] + changes else prev[k])
  {
    var where := map[primary := Get(rows[j], primary)];
    var ids := IdsOf(rows, primary);
    forall k | 0 <= k < |rows|
      ensures Matches(prev[k], where) <==> k == j
    {
      assert Get(prev[k], primary) == ids[k] && Get(rows[j], primary) == ids[j];
      assert k != j ==> ids[k] != ids[j];
    }
  }

  /** What the first `i` updates have done to the table. */
  predicate PrefixDone(prev: seq<Row>, rows: seq<Row>, o: OrderBy, i: nat)
    requires i <= |rows|
  {
    |prev| == |rows| && forall k :: 0 <= k < |rows| ==> prev[k] == (if k < i then RenumberedRow(rows, o, k) else rows[k])
  }

  /** The updates so far leave every row's primary key as it was. */
  lemma PrefixKeepsIds(prev: seq<Row>, rows: seq<Row>, o: OrderBy, primary: string, i: nat)
    requires i <= |rows| && o.field != primary && PrefixDone(prev, rows, o, i)
    ensures forall k :: 0 <= k < |rows| ==> Get(prev[k], primary) == Get(rows[k], primary)
  {
    forall k | 0 <= k < |rows| ensures Get(prev[k], primary) == Get(rows[k], primary) {
      assert prev[k] == (if k < i then RenumberedRow(rows, o, k) else rows[k]);
    }
  }

  /** The `i`-th update renumbers the `i`-th row and no other. */
  lemma PrefixUpdate(prev: seq<Row>, rows: seq<Row>, o: OrderBy, primary: string, i: nat)
    requires i < |rows| && DistinctIds(rows, primary) && o.field != primary
    requires PrefixDone(prev, rows, o, i) && NeedsUpdate(rows, o, i)
    ensures PrefixDone(UpdateWhere(prev, map[primary := Get(rows[i], primary)],
                                   map[o.field := VInt(OrderAt(PartitionStrings(rows, o.dependingOn), i))]),
                       rows, o, i + 1)
  {
    var changes := map[o.field := VInt(OrderAt(PartitionStrings(rows, o.dependingOn), i))];
    PrefixKeepsIds(prev, rows, o, primary, i);
    UpdateById(prev, rows, primary, i, changes);
  }

  /** A row whose order is in place is left as it is. */
  lemma PrefixSkip(prev: seq<Row>, rows: seq<Row>, o: OrderBy, i: nat)
    requires i < |rows| && PrefixDone(prev, rows, o, i) && !NeedsUpdate(rows, o, i)
    ensures PrefixDone(prev, rows, o, i + 1)
  {
  }

  lemma {:induction false} AppliedPrefix(rows: seq<Row>, o: OrderBy, primary: string, i: nat)
    requires i <= |rows|
    requires DistinctIds(rows, primary) && o.field != primary
    ensures PrefixDone(Applied(rows, rows, o, primary, i), rows, o, i)
  {
    if i > 0 {
      AppliedPrefix(rows, o, primary, i - 1);
      if NeedsUpdate(rows, o, i - 1) {
        PrefixUpdate(Applied(rows, rows, o, primary, i - 1), rows, o, primary, i - 1);
      } else {
        PrefixSkip(Applied(rows, rows, o, primary, i - 1), rows, o, i - 1);
      }
    }
  }

  /**
   * On a table whose rows the primary key tells apart, streamed in stored
   * order, the updates of the pass leave exactly the renumbered rows.
   */
  lemma PassRenumbers(rows: seq<Row>, o: OrderBy, primary: string)
    requires DistinctIds(rows, primary) && o.field != primary
    ensures Applied(rows, rows, o, primary, |rows|) == Renumbered(rows, o)
  {
    AppliedPrefix(rows, o, primary, |rows|);
  }

  /** Renumbering does not touch the `depending_on` columns when the order column is not one of them. */
  lemma RenumberedPartitions(rows: seq<Row>, o: OrderBy)
    requires o.field !in o.dependingOn
    ensures PartitionStrings(Renumbered(rows, o), o.dependingOn) == PartitionStrings(rows, o.dependingOn)
  {
    var r := Renumbered(rows, o);
    forall i | 0 <= i < |rows|
      ensures PartitionString(r[i], o.dependingOn) == PartitionString(rows[i], o.dependingOn)
    {
      var deps := o.dependingOn;
      assert seq(|deps|, j requires 0 <= j < |deps| => ToStr(Get(r[i], deps[j]))) ==
             seq(|deps|, j requires 0 <= j < |deps| => ToStr(Get(rows[i], deps[j])));
    }
  }

  /**
   * Idempotence: a second pass over the renumbered rows finds every order in
   * place, issues no update and leaves the table as it is.
   */
  lemma SecondPassIsQuiet(rows: seq<Row>, o: OrderBy, primary: string)
    requires o.field !in o.dependingOn
    ensures forall i :: 0 <= i < |rows| ==> !NeedsUpdate(Renumbered(rows, o), o, i)
    ensures Applied(Renumbered(rows, o), Renumbered(rows, o), o, primary, |rows|) == Renumbered(rows, o)
  {
    var r := Renumbered(rows, o);
    RenumberedPartitions(rows, o);
    forall i | 0 <= i < |rows| ensures !NeedsUpdate(r, o, i) {
      if NeedsUpdate(rows, o, i) {
        assert Get(r[i], o.field) == VInt(OrderAt(PartitionStrings(rows, o.dependingOn), i));
      }
    }
    QuietApplied(r, o, primary, |rows|);
  }

  lemma {:induction false} QuietApplied(rows: seq<Row>, o: OrderBy, primary: string, i: nat)
    requires i <= |rows|
    requires forall k :: 0 <= k < |rows| ==> !NeedsUpdate(rows, o, k)
    ensures Applied(rows, rows, o, primary, i) == rows
  {
    if i > 0 {
      QuietApplied(rows, o, primary, i - 1);
    }
  }

  /** An empty (or "0") partition string never resets the count: that row counts on from the previous one. */
  lemma NoResetOnFalsy(pss: seq<string>, i: nat)
    requires 0 < i < |pss| && !Named(pss[i])
    ensures OrderAt(pss, i) == OrderAt(pss, i - 1) + 1
  {
    CounterStep(pss, i);
  }

  /** Without a truthy partition string (e.g. no `depending_on`) the whole table is numbered 1..N. */
  lemma {:induction false} WholeTableNumbering(pss: seq<string>, i: nat)
    requires i < |pss|
    requires forall k :: 0 <= k < |pss| ==> !Named(pss[k])
    ensures OrderAt(pss, i) == i + 1
  {
    if i == 0 {
      CounterStep(pss, 0);
    } else {
      WholeTableNumbering(pss, i - 1);
      NoResetOnFalsy(pss, i);
    }
  }

  /** Rows of one partition are contiguous in the stream, as ORDER BY `depending_on` makes them. */
  predicate Grouped(pss: seq<string>)
  {
    forall i, j, k :: 0 <= i < j < k < |pss| && pss[i] == pss[k] ==> pss[j] == pss[i]
  }

  /** After a truthy partition string, it is the last parent. */
  lemma LastParentIsPrevious(pss: seq<string>, i: nat)
    requires 0 < i <= |pss| && Named(pss[i - 1])
    ensures CounterAfter(pss[..i]).lastParent == Some(pss[i - 1])
  {
    CounterStep(pss, i - 1);
  }

  /**
   * Over a stream grouped by truthy partition strings, each row gets one more
   * than the number of earlier rows of its partition: every partition is
   * numbered 1, 2, …, n.
   */
  lemma {:induction false} PartitionNumbering(pss: seq<string>, i: nat)
    requires i < |pss| && Grouped(pss)
    requires forall k :: 0 <= k < |pss| ==> Named(pss[k])
    ensures OrderAt(pss, i) == multiset(pss[..i])[pss[i]] + 1
  {
    CounterStep(pss, i);
    if i == 0 {
      assert pss[..0] == [];
    } else {
      PartitionNumbering(pss, i - 1);
      LastParentIsPrevious(pss, i);
      assert pss[..i] == pss[..i - 1] + [pss[i - 1]];
      if pss[i] == pss[i - 1] {
        assert multiset(pss[..i])[pss[i]] == multiset(pss[..i - 1])[pss[i - 1]] + 1;
      } else {
        assert pss[i] !in pss[..i] by {
          forall j | 0 <= j < i ensures pss[j] != pss[i] {
            if j < i - 1 {
              assert pss[i - 1] == pss[i] || pss[j] != pss[i];
            }
          }
        }
      }
    }
  }

  /** The table after `cleanUp` handles element `e`: renumbered when it has a custom order and a known table. */
  function CleanUpEffect(tables: map<string, seq<Row>>, e: CleanUpEntry): map<string, seq<Row>>
  {
    if Renumbers(e) && e.table.value in tables then
      var rows := tables[e.table.value];
      tables[e.table.value := Applied(rows, rows, e.orderBy.value, e.primary, |rows|)]
    else tables
  }

  /** The query of a renumbered element fails: its table is unknown. */
  predicate Fails(tables: map<string, seq<Row>>, e: CleanUpEntry)
  {
    Renumbers(e) && e.table.value !in tables
  }

  /**
   * The tables after `cleanUp` has handled `elements` in order, and whether
   * it got through them: a failing query ends the pass.
   */
  function CleanUpAll(tables: map<string, seq<Row>>, elements: Dict<CleanUpEntry>): (map<string, seq<Row>>, bool)
  {
    if elements == [] then (tables, true)
    else
      var prev := CleanUpAll(tables, elements[..|elements| - 1]);
      if !prev.1 || Fails(prev.0, elements[|elements| - 1].1) then (prev.0, false)
      else (CleanUpEffect(prev.0, elements[|elements| - 1].1), true)
  }

  /** Tables `cleanUp` leaves as they are, and tables it replaces by their renumbering. */
  lemma CleanUpEffectSpec(tables: map<string, seq<Row>>, e: CleanUpEntry)
    ensures CleanUpEffect(tables, e).Keys == tables.Keys
    ensures forall t :: t in tables && (!Renumbers(e) || t != e.table.value) ==> CleanUpEffect(tables, e)[t] == tables[t]
    ensures Renumbers(e) && e.table.value in tables && e.orderBy.value.field != e.primary &&
            DistinctIds(tables[e.table.value], e.primary) ==>
              CleanUpEffect(tables, e)[e.table.value] == Renumbered(tables[e.table.value], e.orderBy.value)
  {
    if Renumbers(e) && e.table.value in tables && e.orderBy.value.field != e.primary &&
       DistinctIds(tables[e.table.value], e.primary) {
      PassRenumbers(tables[e.table.value], e.orderBy.value, e.primary);
    }
  }

  /**
   * One row of the stream: the counters move on, and the row is updated when
   * its stored order differs from the computed one.
   */
  method RenumberRow(db: Db, t: string, rows: seq<Row>, o: OrderBy, primary: string, i: nat,
                     lastParent: Option<string>, currentOrder: int,
                     ghost pss: seq<string>, ghost tables0: map<string, seq<Row>>)
    returns (lastParent': Option<string>, currentOrder': int)
    requires pss == PartitionStrings(rows, o.dependingOn)
    requires db.Valid() && i < |rows|
    requires Counter(lastParent, currentOrder) == CounterAfter(pss[..i])
    requires db.tables == tables0[t := Applied(rows, rows, o, primary, i)]
    modifies db
    ensures db.Valid()
    ensures Counter(lastParent', currentOrder') == CounterAfter(pss[..i + 1])
    ensures db.tables == tables0[t := Applied(rows, rows, o, primary, i + 1)]
  {
    var r := rows[i];
    var ps := PartitionString(r, o.dependingOn);
    CounterStep(pss, i);
    lastParent', currentOrder' := lastParent, currentOrder;
    if Named(ps) && lastParent' != Some(ps) {
      lastParent' := Some(ps);
      currentOrder' := 0;
    }
    currentOrder' := currentOrder' + 1;
    IssueUpdate(db, t, rows, o, primary, i, currentOrder', tables0);
  }

  /** `if ($r[field] != $currentOrder) update(table, $r[primary], [field => $currentOrder])`. */
  method IssueUpdate(db: Db, t: string, rows: seq<Row>, o: OrderBy, primary: string, i: nat, n: int,
                     ghost tables0: map<string, seq<Row>>)
    requires db.Valid() && i < |rows| && n == OrderAt(PartitionStrings(rows, o.dependingOn), i)
    requires db.tables == tables0[t := Applied(rows, rows, o, primary, i)]
    modifies db
    ensures db.Valid()
    ensures db.tables == tables0[t := Applied(rows, rows, o, primary, i + 1)]
  {
    ghost var before := Applied(rows, rows, o, primary, i);
    AppliedStep(rows, rows, o, primary, i, n);
    if !LooseEqualsInt(Get(rows[i], o.field), n) {
      var where, changes := map[primary := Get(rows[i], primary)], map[o.field := VInt(n)];
      assert db.Rows(t) == before;
      db.Update(t, where, changes);
      UpdateReplaces(tables0, t, before, UpdateWhere(before, where, changes));
    }
  }

  lemma UpdateReplaces(tables: map<string, seq<Row>>, t: string, a: seq<Row>, b: seq<Row>)
    ensures tables[t := a][t := b] == tables[t := b]
  {
  }

  /** The renumbering pass over table `t`, streamed in stored order. */
  method Renumber(db: Db, t: string, o: OrderBy, primary: string)
    requires db.Valid() && t in db.tables
    modifies db
    ensures db.Valid()
    ensures db.tables == old(db.tables)[t := Applied(old(db.tables)[t], old(db.tables)[t], o, primary, |old(db.tables)[t]|)]
  {
    var rows := db.SelectAll(t, map[]);
    FilterWhereEverything(db.Rows(t));
    ghost var tables0 := db.tables;
    ghost var pss := PartitionStrings(rows, o.dependingOn);
    var lastParent: Option<string> := None;
    var currentOrder := 0;
    assert pss[..0] == [];
    for i := 0 to |rows|
      invariant db.Valid()
      invariant Counter(lastParent, currentOrder) == CounterAfter(pss[..i])
      invariant db.tables == tables0[t := Applied(rows, rows, o, primary, i)]
    {
      lastParent, currentOrder := RenumberRow(db, t, rows, o, primary, i, lastParent, currentOrder, pss, tables0);
    }
  }

  /**
   * One element of `cleanUp`, skipped unless it has a table and a custom
   * order. `ok` is false when the table is unknown and the query fails.
   */
  method CleanUpElement(db: Db, e: CleanUpEntry) returns (ok: bool)
    requires db.Valid()
    modifies db
    ensures db.Valid()
    ensures ok <==> !Fails(old(db.tables), e)
    ensures db.tables == CleanUpEffect(old(db.tables), e)
  {
    if !Renumbers(e) {
      return true;
    }
    if e.table.value !in db.tables {
      return false;
    }
    Renumber(db, e.table.value, e.orderBy.value, e.primary);
    ok := true;
  }

  /** `cleanUp` over the cached elements, in order; `ok` is false when a query failed and ended it. */
  method CleanUp(db: Db, elements: Dict<CleanUpEntry>) returns (ok: bool)
    requires db.Valid()
    modifies db
    ensures db.Valid()
    ensures (db.tables, ok) == CleanUpAll(old(db.tables), elements)
  {
    var i := 0;
    while i < |elements|
      invariant 0 <= i <= |elements| && db.Valid()
      invariant CleanUpAll(old(db.tables), elements[..i]) == (db.tables, true)
    {
      assert elements[..i + 1][..i] == elements[..i];
      ok := CleanUpElement(db, elements[i].1);
      if !ok {
        FailureIsFinal(old(db.tables), elements, i + 1);
        return;
      }
      i := i + 1;
    }
    assert elements[..|elements|] == elements;
    ok := true;
  }

  /** Once a query has failed, the later elements change nothing. */
  lemma {:induction false} FailureIsFinal(tables: map<string, seq<Row>>, elements: Dict<CleanUpEntry>, n: nat)
    requires n <= |elements| && !CleanUpAll(tables, elements[..n]).1
    ensures CleanUpAll(tables, elements) == CleanUpAll(tables, elements[..n])
    decreases |elements| - n
  {
    if n < |elements| {
      assert elements[..n + 1][..n] == elements[..n];
      FailureIsFinal(tables, elements, n + 1);
    } else {
      assert elements[..n] == elements;
    }
  }
}
