/**
 * What the `orderBy` bookkeeping of an element keeps true of a table: inside
 * every partition (the rows sharing one value of the `depending_on` column, or
 * the whole table when there is none) the order column holds exactly the
 * numbers 1..n, each once. Deleting a row shifts the ones above it down,
 * inserting a row gives it MAX+1, and moving a row to another parent does
 * both; each of these keeps that invariant.
 */
module Ordering {
  import opened Values
  import opened Database

  /** The rows of one partition, in stored order. */
  function Partition(rows: seq<Row>, dep: Option<string>, parent: Value): (p: seq<Row>)
    ensures |p| <= |rows|
  {
    if rows == [] then []
    else (if InPartition(rows[0], dep, parent) then [rows[0]] else []) + Partition(rows[1..], dep, parent)
  }

  /** A partition holds exactly the rows of the table that satisfy its condition. */
  lemma {:induction false} PartitionMember(rows: seq<Row>, dep: Option<string>, parent: Value)
    ensures forall r :: r in Partition(rows, dep, parent) <==> r in rows && InPartition(r, dep, parent)
  {
    if rows != [] {
      PartitionMember(rows[1..], dep, parent);
      assert rows == [rows[0]] + rows[1..];
    }
  }

  /** The where-array that selects a partition. */
  function WhereOf(dep: Option<string>, parent: Value): (w: Where)
    ensures forall r :: Matches(r, w) <==> InPartition(r, dep, parent)
  {
    if dep.Some? then map[dep.value := parent] else map[]
  }

  /** The order number of a row (0 when the column holds no number). */
  function Ord(r: Row, f: string): int
  {
    match Numeric(Get(r, f))
    case None => 0
    case Some(n) => n
  }

  /** The order numbers of `p` are exactly 1..|p|, each once. */
  predicate OrderDense(p: seq<Row>, f: string)
  {
    OrdersInRange(p, f) && OrdersDistinct(p, f)
  }

  /** Every order number of `p` lies in 1..|p|. */
  predicate OrdersInRange(p: seq<Row>, f: string)
  {
    forall i :: 0 <= i < |p| ==> 1 <= Ord(p[i], f) <= |p|
  }

  /** No two rows of `p` share an order number. */
  predicate OrdersDistinct(p: seq<Row>, f: string)
  {
    forall i, j :: 0 <= i < j < |p| ==> Ord(p[i], f) != Ord(p[j], f)
  }

  /** No two rows of the table share a primary key. */
  predicate UniqueKeys(rows: seq<Row>, pk: string)
  {
    forall i, j :: 0 <= i < |rows| && 0 <= j < |rows| && Get(rows[i], pk) == Get(rows[j], pk) ==> i == j
  }

  // ---------------------------------------------------------------------------
  // Counting

  /** Every order number of `p` lies in 1..m. */
  predicate OrdersWithin(p: seq<Row>, f: string, m: int)
  {
    forall i :: 0 <= i < |p| ==> 1 <= Ord(p[i], f) <= m
  }

  /** Distinct order numbers drawn from 1..m are at most m. */
  lemma {:induction false} Pigeonhole(p: seq<Row>, f: string, m: nat)
    requires OrdersWithin(p, f, m) && OrdersDistinct(p, f)
    ensures |p| <= m
    decreases m
  {
    if |p| > 0 {
      assert 1 <= Ord(p[0], f) <= m;
      if i :| 0 <= i < |p| && Ord(p[i], f) == m {
        DropTop(p, f, m, i);
        Pigeonhole(p[..i] + p[i + 1..], f, m - 1);
      } else {
        Pigeonhole(p, f, m - 1);
      }
    }
  }

  /** Taking out the row numbered m leaves distinct numbers drawn from 1..m - 1. */
  lemma DropTop(p: seq<Row>, f: string, m: nat, i: int)
    requires OrdersWithin(p, f, m) && OrdersDistinct(p, f)
    requires 0 <= i < |p| && Ord(p[i], f) == m
    ensures OrdersWithin(p[..i] + p[i + 1..], f, m - 1) && OrdersDistinct(p[..i] + p[i + 1..], f)
  {
    var rest := p[..i] + p[i + 1..];
    assert forall a :: 0 <= a < |rest| ==> rest[a] == p[if a < i then a else a + 1];
    forall a | 0 <= a < |rest|
      ensures 1 <= Ord(rest[a], f) <= m - 1
    {
      var sa := if a < i then a else a + 1;
      assert sa != i && rest[a] == p[sa];
      if sa < i {
        assert Ord(p[sa], f) != Ord(p[i], f);
      } else {
        assert Ord(p[i], f) != Ord(p[sa], f);
      }
    }
    forall a, c | 0 <= a < c < |rest|
      ensures Ord(rest[a], f) != Ord(rest[c], f)
    {
      var sa, sc := if a < i then a else a + 1, if c < i then c else c + 1;
      assert sa < sc && rest[a] == p[sa] && rest[c] == p[sc];
    }
  }

  /** A non-empty dense partition contains its top number |p|. */
  lemma DenseHasTop(p: seq<Row>, f: string)
    requires OrderDense(p, f) && |p| > 0
    ensures exists i :: 0 <= i < |p| && Ord(p[i], f) == |p|
  {
    if forall i :: 0 <= i < |p| ==> Ord(p[i], f) != |p| {
      assert OrdersWithin(p, f, |p| - 1);
      Pigeonhole(p, f, |p| - 1);
    }
  }

  /** On a dense partition, `MAX(f) + 1` is one past its size. */
  lemma NextOfDense(rows: seq<Row>, f: string, dep: Option<string>, parent: Value)
    requires OrderDense(Partition(rows, dep, parent), f)
    ensures NextValue(rows, WhereOf(dep, parent), f) == |Partition(rows, dep, parent)| + 1
  {
    var p := Partition(rows, dep, parent);
    var w := WhereOf(dep, parent);
    var m := MaxOf(rows, w, f);
    MaxOfIsMax(rows, w, f);
    PartitionMember(rows, dep, parent);
    if |p| == 0 {
      assert forall r :: r in rows && Matches(r, w) ==> r in p;
    } else {
      DenseHasTop(p, f);
      var i :| 0 <= i < |p| && Ord(p[i], f) == |p|;
      assert p[i] in rows && Matches(p[i], w);
      assert m.Some? && |p| <= m.value;
      var r :| r in rows && Matches(r, w) && Numeric(Get(r, f)) == m;
      assert r in p;
      var k :| 0 <= k < |p| && p[k] == r;
      assert Ord(p[k], f) == m.value;
    }
  }

  // ---------------------------------------------------------------------------
  // The table operations, one partition at a time

  lemma ConcatAssoc(x: seq<Row>, y: seq<Row>, z: seq<Row>)
    ensures x + (y + z) == (x + y) + z
  {
  }

  lemma {:induction false} PartitionConcat(a: seq<Row>, b: seq<Row>, dep: Option<string>, parent: Value)
    ensures Partition(a + b, dep, parent) == Partition(a, dep, parent) + Partition(b, dep, parent)
  {
    if a == [] {
      assert a + b == b;
    } else {
      var head := if InPartition(a[0], dep, parent) then [a[0]] else [];
      assert (a + b)[0] == a[0];
      assert (a + b)[1..] == a[1..] + b;
      PartitionConcat(a[1..], b, dep, parent);
      assert Partition(a + b, dep, parent) == head + (Partition(a[1..], dep, parent) + Partition(b, dep, parent));
      ConcatAssoc(head, Partition(a[1..], dep, parent), Partition(b, dep, parent));
    }
  }

  lemma ShiftConcat(a: seq<Row>, b: seq<Row>, f: string, dep: Option<string>, parent: Value, o: Value)
    ensures ShiftDown(a + b, f, dep, parent, o) == ShiftDown(a, f, dep, parent, o) + ShiftDown(b, f, dep, parent, o)
  {
    var l := ShiftDown(a + b, f, dep, parent, o);
    var r := ShiftDown(a, f, dep, parent, o) + ShiftDown(b, f, dep, parent, o);
    assert |l| == |r|;
    forall i | 0 <= i < |l|
      ensures l[i] == r[i]
    {
      if i < |a| {
        assert (a + b)[i] == a[i];
      } else {
        assert (a + b)[i] == b[i - |a|];
      }
    }
  }

  /** Shifting the rows of one partition commutes with selecting any partition. */
  lemma {:induction false} ShiftPartition(rows: seq<Row>, f: string, dep: Option<string>, parent: Value, o: Value, q: Value)
    requires dep.Some? ==> f != dep.value
    ensures Partition(ShiftDown(rows, f, dep, parent, o), dep, q)
         == ShiftDown(Partition(rows, dep, q), f, dep, parent, o)
  {
    if rows != [] {
      var s := ShiftDown(rows, f, dep, parent, o);
      var r0 := ShiftRow(rows[0], f, dep, parent, o);
      assert s[0] == r0 && s[1..] == ShiftDown(rows[1..], f, dep, parent, o);
      assert InPartition(r0, dep, q) <==> InPartition(rows[0], dep, q);
      ShiftPartition(rows[1..], f, dep, parent, o, q);
      var head := if InPartition(rows[0], dep, q) then [rows[0]] else [];
      var shead := if InPartition(r0, dep, q) then [r0] else [];
      assert Partition(s, dep, q) == shead + Partition(s[1..], dep, q);
      assert ShiftDown(head, f, dep, parent, o) == shead;
      ShiftConcat(head, Partition(rows[1..], dep, q), f, dep, parent, o);
    }
  }

  /** Rows outside the shifted partition keep their numbers. */
  lemma ShiftOutside(s: seq<Row>, f: string, dep: Option<string>, parent: Value, o: Value)
    requires forall i :: 0 <= i < |s| ==> !InPartition(s[i], dep, parent)
    ensures ShiftDown(s, f, dep, parent, o) == s
  {
  }

  /** A partition other than the shifted one is left alone. */
  lemma ShiftOtherPartition(rows: seq<Row>, f: string, d: string, parent: Value, o: Value, q: Value)
    requires f != d && q != parent
    ensures Partition(ShiftDown(rows, f, Some(d), parent, o), Some(d), q) == Partition(rows, Some(d), q)
  {
    ShiftPartition(rows, f, Some(d), parent, o, q);
    var p := Partition(rows, Some(d), q);
    PartitionMember(rows, Some(d), q);
    assert forall i :: 0 <= i < |p| ==> p[i] in p;
    ShiftOutside(p, f, Some(d), parent, o);
  }

  /** No row of `s` is selected by `w`. */
  predicate NoneMatch(s: seq<Row>, w: Where)
  {
    forall i :: 0 <= i < |s| ==> !Matches(s[i], w)
  }

  lemma {:induction false} DeleteNone(s: seq<Row>, w: Where)
    requires NoneMatch(s, w)
    ensures DeleteWhere(s, w) == s
  {
    if s != [] {
      DeleteNone(s[1..], w);
      assert [s[0]] + s[1..] == s;
    }
  }

  lemma {:induction false} DeleteConcat(a: seq<Row>, b: seq<Row>, w: Where)
    ensures DeleteWhere(a + b, w) == DeleteWhere(a, w) + DeleteWhere(b, w)
  {
    if a == [] {
      assert a + b == b;
    } else {
      var head := if Matches(a[0], w) then [] else [a[0]];
      assert (a + b)[0] == a[0];
      assert (a + b)[1..] == a[1..] + b;
      DeleteConcat(a[1..], b, w);
      assert DeleteWhere(a + b, w) == head + (DeleteWhere(a[1..], w) + DeleteWhere(b, w));
      ConcatAssoc(head, DeleteWhere(a[1..], w), DeleteWhere(b, w));
    }
  }

  // ---------------------------------------------------------------------------
  // Density of one partition

  lemma ShiftOrd(r: Row, f: string, dep: Option<string>, parent: Value, o: Value, k: int)
    requires InPartition(r, dep, parent) && Numeric(o) == Some(k) && Ord(r, f) >= 1
    ensures Ord(ShiftRow(r, f, dep, parent, o), f) == if Ord(r, f) > k then Ord(r, f) - 1 else Ord(r, f)
  {
  }

  /** What the shift does to one order number when number k is removed. */
  function Down(v: int, k: int): int
  {
    if v > k then v - 1 else v
  }

  /** Row i of the shifted remainder comes from row i, or i + 1 past the removed one. */
  lemma ShiftedAt(a: seq<Row>, x: Row, b: seq<Row>, f: string, dep: Option<string>, parent: Value, i: int)
    requires forall r :: r in a + [x] + b ==> InPartition(r, dep, parent)
    requires OrderDense(a + [x] + b, f)
    requires 0 <= i < |a| + |b|
    ensures var q := ShiftDown(a, f, dep, parent, Get(x, f)) + ShiftDown(b, f, dep, parent, Get(x, f));
            var src := (a + [x] + b)[if i < |a| then i else i + 1];
            Ord(q[i], f) == Down(Ord(src, f), Ord(x, f)) && Ord(src, f) != Ord(x, f)
  {
    var p := a + [x] + b;
    var o := Get(x, f);
    var s := if i < |a| then i else i + 1;
    assert p[|a|] == x;
    var sa, sb := ShiftDown(a, f, dep, parent, o), ShiftDown(b, f, dep, parent, o);
    var q := sa + sb;
    if i < |a| {
      assert q[i] == sa[i] == ShiftRow(a[i], f, dep, parent, o);
      assert p[s] == a[i];
      assert Ord(p[s], f) != Ord(p[|a|], f);
    } else {
      assert q[i] == sb[i - |a|] == ShiftRow(b[i - |a|], f, dep, parent, o);
      assert p[s] == b[i - |a|];
      assert Ord(p[|a|], f) != Ord(p[s], f);
    }
    assert p[s] in p;
    ShiftOrd(p[s], f, dep, parent, o, Ord(x, f));
  }

  /**
   * Removing the row numbered k from a dense partition and shifting every
   * number above k down by one leaves a dense partition.
   */
  lemma RemoveShiftDense(a: seq<Row>, x: Row, b: seq<Row>, f: string, dep: Option<string>, parent: Value)
    requires forall r :: r in a + [x] + b ==> InPartition(r, dep, parent)
    requires OrderDense(a + [x] + b, f)
    ensures OrderDense(ShiftDown(a, f, dep, parent, Get(x, f)) + ShiftDown(b, f, dep, parent, Get(x, f)), f)
  {
    RemoveShiftInRange(a, x, b, f, dep, parent);
    RemoveShiftDistinct(a, x, b, f, dep, parent);
  }

  /** After the shift every number lies in 1..n - 1. */
  lemma RemoveShiftInRange(a: seq<Row>, x: Row, b: seq<Row>, f: string, dep: Option<string>, parent: Value)
    requires forall r :: r in a + [x] + b ==> InPartition(r, dep, parent)
    requires OrderDense(a + [x] + b, f)
    ensures OrdersInRange(ShiftDown(a, f, dep, parent, Get(x, f)) + ShiftDown(b, f, dep, parent, Get(x, f)), f)
  {
    var p := a + [x] + b;
    var q := ShiftDown(a, f, dep, parent, Get(x, f)) + ShiftDown(b, f, dep, parent, Get(x, f));
    assert p[|a|] == x;
    assert 1 <= Ord(x, f) <= |p|;
    forall i | 0 <= i < |q|
      ensures 1 <= Ord(q[i], f) <= |q|
    {
      ShiftedAt(a, x, b, f, dep, parent, i);
      var si := if i < |a| then i else i + 1;
      assert 1 <= Ord(p[si], f) <= |p|;
    }
  }

  /** After the shift no two rows share a number. */
  lemma RemoveShiftDistinct(a: seq<Row>, x: Row, b: seq<Row>, f: string, dep: Option<string>, parent: Value)
    requires forall r :: r in a + [x] + b ==> InPartition(r, dep, parent)
    requires OrderDense(a + [x] + b, f)
    ensures OrdersDistinct(ShiftDown(a, f, dep, parent, Get(x, f)) + ShiftDown(b, f, dep, parent, Get(x, f)), f)
  {
    var p := a + [x] + b;
    var q := ShiftDown(a, f, dep, parent, Get(x, f)) + ShiftDown(b, f, dep, parent, Get(x, f));
    forall i, j | 0 <= i < j < |q|
      ensures Ord(q[i], f) != Ord(q[j], f)
    {
      ShiftedAt(a, x, b, f, dep, parent, i);
      ShiftedAt(a, x, b, f, dep, parent, j);
      var si := if i < |a| then i else i + 1;
      var sj := if j < |a| then j else j + 1;
      assert Ord(p[si], f) != Ord(p[sj], f);
    }
  }

  /** Adding a row numbered one past the size of a dense partition keeps it dense. */
  lemma InsertTopDense(a: seq<Row>, e: Row, b: seq<Row>, f: string)
    requires OrderDense(a + b, f)
    requires Ord(e, f) == |a| + |b| + 1
    ensures OrderDense(a + [e] + b, f)
  {
    var p := a + b;
    var q := a + [e] + b;
    assert forall i :: 0 <= i < |q| && i != |a| ==> q[i] == p[if i < |a| then i else i - 1];
    forall i, j | 0 <= i < j < |q|
      ensures Ord(q[i], f) != Ord(q[j], f)
    {
      if i != |a| && j != |a| {
        var si := if i < |a| then i else i - 1;
        var sj := if j < |a| then j else j - 1;
        assert si < sj;
      }
    }
  }

  lemma Partition3(a: seq<Row>, x: Row, b: seq<Row>, dep: Option<string>, q: Value)
    ensures Partition(a + [x] + b, dep, q)
         == Partition(a, dep, q) + (if InPartition(x, dep, q) then [x] else []) + Partition(b, dep, q)
  {
    var px := if InPartition(x, dep, q) then [x] else [];
    PartitionConcat(a + [x], b, dep, q);
    PartitionConcat(a, [x], dep, q);
    assert [x][1..] == [];
    assert Partition([x], dep, q) == px;
    assert Partition(a + [x], dep, q) == Partition(a, dep, q) + px;
  }

  /** The shift that makes room when row j leaves does not touch row j itself. */
  lemma ShiftSplit(rows: seq<Row>, j: int, f: string, dep: Option<string>, parent: Value)
    requires 0 <= j < |rows|
    ensures ShiftDown(rows, f, dep, parent, Get(rows[j], f))
         == ShiftDown(rows[..j], f, dep, parent, Get(rows[j], f)) + [rows[j]]
            + ShiftDown(rows[j + 1..], f, dep, parent, Get(rows[j], f))
  {
    var o := Get(rows[j], f);
    var sl, sr := ShiftDown(rows[..j], f, dep, parent, o), ShiftDown(rows[j + 1..], f, dep, parent, o);
    var lhs := ShiftDown(rows, f, dep, parent, o);
    var rhs := sl + [rows[j]] + sr;
    forall i | 0 <= i < |lhs|
      ensures lhs[i] == rhs[i]
    {
      if i < j {
        assert rhs[i] == sl[i] == ShiftRow(rows[i], f, dep, parent, o);
      } else if i == j {
        assert rhs[i] == rows[j] == ShiftRow(rows[j], f, dep, parent, o);
      } else {
        assert rhs[i] == sr[i - j - 1] == ShiftRow(rows[i], f, dep, parent, o);
      }
    }
    assert lhs == rhs;
  }

  /** Deleting by a key only one row carries removes that row alone. */
  lemma DeleteOnly(a: seq<Row>, x: Row, b: seq<Row>, w: Where)
    requires Matches(x, w)
    requires NoneMatch(a, w) && NoneMatch(b, w)
    ensures DeleteWhere(a + [x] + b, w) == a + b
  {
    DeleteNone(a, w);
    DeleteNone(b, w);
    DeleteConcat(a + [x], b, w);
    DeleteConcat(a, [x], w);
    assert [x][1..] == [];
    assert DeleteWhere([x], w) == [];
    assert DeleteWhere(a + [x], w) == a;
  }

  /** Every row other than row j carries a different primary key, before and after a shift. */
  lemma OthersKeyed(rows: seq<Row>, j: int, f: string, pk: string, dep: Option<string>, parent: Value, o: Value)
    requires 0 <= j < |rows| && UniqueKeys(rows, pk) && f != pk
    ensures var w := map[pk := Get(rows[j], pk)];
            NoneMatch(ShiftDown(rows[..j], f, dep, parent, o), w) &&
            NoneMatch(ShiftDown(rows[j + 1..], f, dep, parent, o), w)
  {
    var w := map[pk := Get(rows[j], pk)];
    var sl, sr := ShiftDown(rows[..j], f, dep, parent, o), ShiftDown(rows[j + 1..], f, dep, parent, o);
    forall i | 0 <= i < |sl|
      ensures !Matches(sl[i], w)
    {
      assert sl[i] == ShiftRow(rows[i], f, dep, parent, o);
      assert Get(rows[i], pk) != Get(rows[j], pk);
      assert Get(sl[i], pk) != Get(rows[j], pk);
    }
    forall i | 0 <= i < |sr|
      ensures !Matches(sr[i], w)
    {
      assert sr[i] == ShiftRow(rows[j + 1 + i], f, dep, parent, o);
      assert Get(rows[j + 1 + i], pk) != Get(rows[j], pk);
      assert Get(sr[i], pk) != Get(rows[j], pk);
    }
  }

  /** Updating by a key only one row carries changes that row alone. */
  lemma UpdateOnly(a: seq<Row>, x: Row, b: seq<Row>, w: Where, c: Row)
    requires Matches(x, w)
    requires NoneMatch(a, w) && NoneMatch(b, w)
    ensures UpdateWhere(a + [x] + b, w, c) == a + [x + c] + b
  {
    var s := a + [x] + b;
    var u := UpdateWhere(s, w, c);
    var t := a + [x + c] + b;
    forall i | 0 <= i < |s|
      ensures u[i] == t[i]
    {
      assert u[i] == UpdateRow(s[i], w, c);
      if i < |a| {
        assert s[i] == a[i] && t[i] == a[i] && !Matches(a[i], w);
      } else if i == |a| {
        assert s[i] == x && t[i] == x + c;
      } else {
        assert s[i] == b[i - |a| - 1] && t[i] == b[i - |a| - 1] && !Matches(b[i - |a| - 1], w);
      }
    }
    assert u == t;
  }

  /** The shift and the delete together leave the table without row j, the rest shifted. */
  lemma DeleteAfterShift(rows: seq<Row>, f: string, dep: Option<string>, parent: Value, pk: string, j: int)
    requires 0 <= j < |rows| && UniqueKeys(rows, pk) && f != pk
    ensures DeleteWhere(ShiftDown(rows, f, dep, parent, Get(rows[j], f)), map[pk := Get(rows[j], pk)])
         == ShiftDown(rows[..j], f, dep, parent, Get(rows[j], f)) + ShiftDown(rows[j + 1..], f, dep, parent, Get(rows[j], f))
  {
    var o := Get(rows[j], f);
    ShiftSplit(rows, j, f, dep, parent);
    OthersKeyed(rows, j, f, pk, dep, parent, o);
    DeleteOnly(ShiftDown(rows[..j], f, dep, parent, o), rows[j], ShiftDown(rows[j + 1..], f, dep, parent, o), map[pk := Get(rows[j], pk)]);
  }

  /** Row j's partition, renumbered. */
  lemma RenumberedPartition(rows: seq<Row>, f: string, dep: Option<string>, parent: Value, j: int)
    requires 0 <= j < |rows| && InPartition(rows[j], dep, parent)
    requires dep.Some? ==> f != dep.value
    requires OrderDense(Partition(rows, dep, parent), f)
    ensures var o := Get(rows[j], f);
            OrderDense(Partition(ShiftDown(rows[..j], f, dep, parent, o) + ShiftDown(rows[j + 1..], f, dep, parent, o), dep, parent), f)
  {
    var o := Get(rows[j], f);
    var x, l, r := rows[j], rows[..j], rows[j + 1..];
    assert rows == l + [x] + r;
    PartitionConcat(ShiftDown(l, f, dep, parent, o), ShiftDown(r, f, dep, parent, o), dep, parent);
    ShiftPartition(l, f, dep, parent, o, parent);
    ShiftPartition(r, f, dep, parent, o, parent);
    Partition3(l, x, r, dep, parent);
    PartitionMember(l, dep, parent);
    PartitionMember(r, dep, parent);
    RemoveShiftDense(Partition(l, dep, parent), x, Partition(r, dep, parent), f, dep, parent);
  }

  /** Every partition other than the shifted one keeps its rows, less a row from another partition. */
  lemma OtherPartitionKept(rows: seq<Row>, f: string, d: string, parent: Value, j: int, q: Value)
    requires 0 <= j < |rows| && Get(rows[j], d) == parent && f != d && q != parent
    ensures var o := Get(rows[j], f);
            (Partition(ShiftDown(rows[..j], f, Some(d), parent, o) + ShiftDown(rows[j + 1..], f, Some(d), parent, o), Some(d), q)
             == Partition(rows, Some(d), q))
  {
    var o := Get(rows[j], f);
    var x, l, r := rows[j], rows[..j], rows[j + 1..];
    assert rows == l + [x] + r;
    PartitionConcat(ShiftDown(l, f, Some(d), parent, o), ShiftDown(r, f, Some(d), parent, o), Some(d), q);
    ShiftOtherPartition(l, f, d, parent, o, q);
    ShiftOtherPartition(r, f, d, parent, o, q);
    Partition3(l, x, r, Some(d), q);
    assert !InPartition(x, Some(d), q);
    assert Partition(l, Some(d), q) + [] == Partition(l, Some(d), q);
  }

  // ---------------------------------------------------------------------------
  // The three table changes an ordered element makes

  /**
   * `delete` on an ordered element: the shift of the rows above it in its
   * partition, then the delete by primary key, leave its partition dense and
   * every other partition as it was.
   */
  lemma DeleteKeepsDense(rows: seq<Row>, f: string, dep: Option<string>, pk: string, j: int)
    requires 0 <= j < |rows| && UniqueKeys(rows, pk)
    requires f != pk && (dep.Some? ==> f != dep.value)
    requires OrderDense(Partition(rows, dep, if dep.Some? then Get(rows[j], dep.value) else VNull), f)
    ensures var parent := if dep.Some? then Get(rows[j], dep.value) else VNull;
            var after := DeleteWhere(ShiftDown(rows, f, dep, parent, Get(rows[j], f)), map[pk := Get(rows[j], pk)]);
            OrderDense(Partition(after, dep, parent), f) &&
            (forall q :: dep.Some? && q != parent ==> Partition(after, dep, q) == Partition(rows, dep, q))
  {
    var parent := if dep.Some? then Get(rows[j], dep.value) else VNull;
    DeleteAfterShift(rows, f, dep, parent, pk, j);
    RenumberedPartition(rows, f, dep, parent, j);
    forall q | dep.Some? && q != parent
      ensures Partition(DeleteWhere(ShiftDown(rows, f, dep, parent, Get(rows[j], f)), map[pk := Get(rows[j], pk)]), dep, q)
           == Partition(rows, dep, q)
    {
      OtherPartitionKept(rows, f, dep.value, parent, j, q);
    }
  }

  /**
   * `save` of a new ordered element: the row inserted with order MAX+1 of its
   * partition keeps that partition dense and leaves every other one as it was.
   */
  lemma InsertKeepsDense(rows: seq<Row>, f: string, dep: Option<string>, e: Row)
    requires OrderDense(Partition(rows, dep, if dep.Some? then Get(e, dep.value) else VNull), f)
    requires Get(e, f) == VInt(NextValue(rows, WhereOf(dep, if dep.Some? then Get(e, dep.value) else VNull), f))
    ensures var parent := if dep.Some? then Get(e, dep.value) else VNull;
            OrderDense(Partition(rows + [e], dep, parent), f) &&
            (forall q :: dep.Some? && q != parent ==> Partition(rows + [e], dep, q) == Partition(rows, dep, q))
  {
    var parent := if dep.Some? then Get(e, dep.value) else VNull;
    NextOfDense(rows, f, dep, parent);
    PartitionConcat(rows, [e], dep, parent);
    var p := Partition(rows, dep, parent);
    assert Partition(rows + [e], dep, parent) == p + [e] + [];
    assert p + [] == p;
    InsertTopDense(p, e, [], f);
    forall q | dep.Some? && q != parent
      ensures Partition(rows + [e], dep, q) == Partition(rows, dep, q)
    {
      PartitionConcat(rows, [e], dep, q);
    }
  }

  /** The shift and the update by primary key change row j by `c` and shift the rest. */
  lemma MoveAfterShift(rows: seq<Row>, f: string, d: string, pk: string, j: int, c: Row)
    requires 0 <= j < |rows| && UniqueKeys(rows, pk) && f != pk
    ensures var op, o := Get(rows[j], d), Get(rows[j], f);
            (UpdateWhere(ShiftDown(rows, f, Some(d), op, o), map[pk := Get(rows[j], pk)], c)
             == ShiftDown(rows[..j], f, Some(d), op, o) + [rows[j] + c] + ShiftDown(rows[j + 1..], f, Some(d), op, o))
  {
    var op, o := Get(rows[j], d), Get(rows[j], f);
    ShiftSplit(rows, j, f, Some(d), op);
    OthersKeyed(rows, j, f, pk, Some(d), op, o);
    UpdateOnly(ShiftDown(rows[..j], f, Some(d), op, o), rows[j], ShiftDown(rows[j + 1..], f, Some(d), op, o), map[pk := Get(rows[j], pk)], c);
  }

  /**
   * `save` of an existing ordered element whose `depending_on` column changes:
   * the shift of its old partition, then the update that moves it to the end of
   * the new one, leave both partitions dense.
   */
  lemma MoveKeepsDense(rows: seq<Row>, f: string, d: string, pk: string, j: int, c: Row)
    requires 0 <= j < |rows| && UniqueKeys(rows, pk)
    requires f != pk && f != d && pk !in c
    requires d in c && c[d] != Get(rows[j], d)
    requires OrderDense(Partition(rows, Some(d), Get(rows[j], d)), f)
    requires OrderDense(Partition(rows, Some(d), c[d]), f)
    requires var shifted := ShiftDown(rows, f, Some(d), Get(rows[j], d), Get(rows[j], f));
             f in c && c[f] == VInt(NextValue(shifted, map[d := c[d]], f))
    ensures var shifted := ShiftDown(rows, f, Some(d), Get(rows[j], d), Get(rows[j], f));
            var after := UpdateWhere(shifted, map[pk := Get(rows[j], pk)], c);
            OrderDense(Partition(after, Some(d), Get(rows[j], d)), f) &&
            OrderDense(Partition(after, Some(d), c[d]), f)
  {
    MoveLeavesOldDense(rows, f, d, pk, j, c);
    MoveEntersNewDense(rows, f, d, pk, j, c);
  }

  /** A row outside a partition does not change it, wherever it stands. */
  lemma OutsiderKeepsDense(a: seq<Row>, e: Row, b: seq<Row>, f: string, dep: Option<string>, q: Value)
    requires !InPartition(e, dep, q)
    requires OrderDense(Partition(a + b, dep, q), f)
    ensures OrderDense(Partition(a + [e] + b, dep, q), f)
  {
    Partition3(a, e, b, dep, q);
    PartitionConcat(a, b, dep, q);
    assert Partition(a, dep, q) + [] + Partition(b, dep, q) == Partition(a, dep, q) + Partition(b, dep, q);
  }

  lemma MoveLeavesOldDense(rows: seq<Row>, f: string, d: string, pk: string, j: int, c: Row)
    requires 0 <= j < |rows| && UniqueKeys(rows, pk)
    requires f != pk && f != d
    requires d in c && c[d] != Get(rows[j], d)
    requires OrderDense(Partition(rows, Some(d), Get(rows[j], d)), f)
    ensures var shifted := ShiftDown(rows, f, Some(d), Get(rows[j], d), Get(rows[j], f));
            OrderDense(Partition(UpdateWhere(shifted, map[pk := Get(rows[j], pk)], c), Some(d), Get(rows[j], d)), f)
  {
    var dep := Some(d);
    var op, o := Get(rows[j], d), Get(rows[j], f);
    var sl, sr := ShiftDown(rows[..j], f, dep, op, o), ShiftDown(rows[j + 1..], f, dep, op, o);
    var e := rows[j] + c;
    var shifted := ShiftDown(rows, f, dep, op, o);
    MoveAfterShift(rows, f, d, pk, j, c);
    RenumberedPartition(rows, f, dep, op, j);
    OutsiderKeepsDense(sl, e, sr, f, dep, op);
  }

  lemma MoveEntersNewDense(rows: seq<Row>, f: string, d: string, pk: string, j: int, c: Row)
    requires 0 <= j < |rows| && UniqueKeys(rows, pk)
    requires f != pk && f != d
    requires d in c && c[d] != Get(rows[j], d)
    requires OrderDense(Partition(rows, Some(d), c[d]), f)
    requires var shifted := ShiftDown(rows, f, Some(d), Get(rows[j], d), Get(rows[j], f));
             f in c && c[f] == VInt(NextValue(shifted, map[d := c[d]], f))
    ensures var shifted := ShiftDown(rows, f, Some(d), Get(rows[j], d), Get(rows[j], f));
            OrderDense(Partition(UpdateWhere(shifted, map[pk := Get(rows[j], pk)], c), Some(d), c[d]), f)
  {
    var dep := Some(d);
    var op, np, o := Get(rows[j], d), c[d], Get(rows[j], f);
    var sl, sr := ShiftDown(rows[..j], f, dep, op, o), ShiftDown(rows[j + 1..], f, dep, op, o);
    var shifted := ShiftDown(rows, f, dep, op, o);
    var e := rows[j] + c;
    MoveAfterShift(rows, f, d, pk, j, c);
    assert Get(e, d) == np && Ord(e, f) == NextValue(shifted, map[d := np], f);
    Partition3(sl, e, sr, dep, np);
    PartitionConcat(sl, sr, dep, np);
    OtherPartitionKept(rows, f, d, op, j, np);
    ShiftOtherPartition(rows, f, d, op, o, np);
    NextOfDense(shifted, f, dep, np);
    InsertTopDense(Partition(sl, dep, np), e, Partition(sr, dep, np), f);
  }

  // ---------------------------------------------------------------------------
  // Columns a query leaves alone

  /** Two tables of the same length whose rows agree, one by one, on the columns `cols`. */
  predicate Agree(a: seq<Row>, b: seq<Row>, cols: set<string>)
  {
    |a| == |b| && forall i, c :: 0 <= i < |a| && c in cols ==> Get(a[i], c) == Get(b[i], c)
  }

  /** Two rows that hold the same entries for the columns `cols`. */
  predicate SameOn(r: Row, s: Row, cols: set<string>)
  {
    forall c :: c in cols ==> (c in r <==> c in s) && (c in r ==> r[c] == s[c])
  }

  lemma AgreeTrans(a: seq<Row>, b: seq<Row>, c: seq<Row>, cols: set<string>)
    requires Agree(a, b, cols) && Agree(b, c, cols)
    ensures Agree(a, c, cols)
  {
  }

  /** A shift of column `f` changes no other column. */
  lemma ShiftElsewhere(rows: seq<Row>, cols: set<string>, f: string, dep: Option<string>, parent: Value, o: Value)
    requires f !in cols
    ensures Agree(ShiftDown(rows, f, dep, parent, o), rows, cols)
  {
  }

  /** A shift reads and writes only its order and partition columns, so it keeps tables that agree on them in agreement. */
  lemma AgreeShift(a: seq<Row>, b: seq<Row>, cols: set<string>, f: string, dep: Option<string>, parent: Value, o: Value)
    requires Agree(a, b, cols) && f in cols && (dep.Some? ==> dep.value in cols)
    ensures Agree(ShiftDown(a, f, dep, parent, o), ShiftDown(b, f, dep, parent, o), cols)
  {
    forall i, c | 0 <= i < |a| && c in cols
      ensures Get(ShiftDown(a, f, dep, parent, o)[i], c) == Get(ShiftDown(b, f, dep, parent, o)[i], c)
    {
      assert Get(a[i], f) == Get(b[i], f);
      assert dep.Some? ==> Get(a[i], dep.value) == Get(b[i], dep.value);
    }
  }

  /** An update selecting on `cols` with changes that agree on `cols` keeps agreeing tables in agreement. */
  lemma AgreeUpdate(a: seq<Row>, b: seq<Row>, cols: set<string>, w: Where, ca: Row, cb: Row)
    requires Agree(a, b, cols) && w.Keys <= cols && SameOn(ca, cb, cols)
    ensures Agree(UpdateWhere(a, w, ca), UpdateWhere(b, w, cb), cols)
  {
    forall i, c | 0 <= i < |a| && c in cols
      ensures Get(UpdateWhere(a, w, ca)[i], c) == Get(UpdateWhere(b, w, cb)[i], c)
    {
      assert Matches(a[i], w) <==> Matches(b[i], w) by {
        assert forall k :: k in w ==> Get(a[i], k) == Get(b[i], k);
      }
    }
  }

  /** A delete selecting on `cols` drops the same positions of agreeing tables. */
  lemma {:induction false} AgreeDelete(a: seq<Row>, b: seq<Row>, cols: set<string>, w: Where)
    requires Agree(a, b, cols) && w.Keys <= cols
    ensures Agree(DeleteWhere(a, w), DeleteWhere(b, w), cols)
  {
    if a != [] {
      assert Agree(a[1..], b[1..], cols) by {
        forall i, c | 0 <= i < |a[1..]| && c in cols ensures Get(a[1..][i], c) == Get(b[1..][i], c) {
          assert a[1..][i] == a[i + 1] && b[1..][i] == b[i + 1];
        }
      }
      AgreeDelete(a[1..], b[1..], cols, w);
      assert Matches(a[0], w) <==> Matches(b[0], w) by {
        assert forall k :: k in w ==> Get(a[0], k) == Get(b[0], k);
      }
      AgreeConcat(if Matches(a[0], w) then [] else [a[0]], DeleteWhere(a[1..], w),
                  if Matches(b[0], w) then [] else [b[0]], DeleteWhere(b[1..], w), cols);
    }
  }

  /** A partition on one of the columns `cols` selects the same positions of agreeing tables. */
  lemma {:induction false} AgreePartition(a: seq<Row>, b: seq<Row>, cols: set<string>, dep: Option<string>, parent: Value)
    requires Agree(a, b, cols) && (dep.Some? ==> dep.value in cols)
    ensures Agree(Partition(a, dep, parent), Partition(b, dep, parent), cols)
  {
    if a != [] {
      assert Agree(a[1..], b[1..], cols) by {
        forall i, c | 0 <= i < |a[1..]| && c in cols ensures Get(a[1..][i], c) == Get(b[1..][i], c) {
          assert a[1..][i] == a[i + 1] && b[1..][i] == b[i + 1];
        }
      }
      AgreePartition(a[1..], b[1..], cols, dep, parent);
      assert dep.Some? ==> Get(a[0], dep.value) == Get(b[0], dep.value);
      AgreeConcat(if InPartition(a[0], dep, parent) then [a[0]] else [], Partition(a[1..], dep, parent),
                  if InPartition(b[0], dep, parent) then [b[0]] else [], Partition(b[1..], dep, parent), cols);
    }
  }

  lemma AgreeConcat(a1: seq<Row>, a2: seq<Row>, b1: seq<Row>, b2: seq<Row>, cols: set<string>)
    requires Agree(a1, b1, cols) && Agree(a2, b2, cols)
    ensures Agree(a1 + a2, b1 + b2, cols)
  {
    forall i, c | 0 <= i < |a1| + |a2| && c in cols ensures Get((a1 + a2)[i], c) == Get((b1 + b2)[i], c) {
      if i < |a1| {
        assert (a1 + a2)[i] == a1[i] && (b1 + b2)[i] == b1[i];
      } else {
        assert (a1 + a2)[i] == a2[i - |a1|] && (b1 + b2)[i] == b2[i - |a1|];
      }
    }
  }

  /** Density of column `f` is read from that column only. */
  lemma AgreeDense(a: seq<Row>, b: seq<Row>, cols: set<string>, f: string)
    requires Agree(a, b, cols) && f in cols
    ensures OrderDense(a, f) <==> OrderDense(b, f)
  {
    assert forall i :: 0 <= i < |a| ==> Ord(a[i], f) == Ord(b[i], f) by {
      forall i | 0 <= i < |a| ensures Ord(a[i], f) == Ord(b[i], f) {
        assert Get(a[i], f) == Get(b[i], f);
      }
    }
  }

  /** `MAX(f) + 1` over a selection on `cols` is the same for agreeing tables. */
  lemma {:induction false} AgreeNext(a: seq<Row>, b: seq<Row>, cols: set<string>, w: Where, f: string)
    requires Agree(a, b, cols) && w.Keys <= cols && f in cols
    ensures NextValue(a, w, f) == NextValue(b, w, f)
  {
    AgreeMax(a, b, cols, w, f);
  }

  lemma {:induction false} AgreeMax(a: seq<Row>, b: seq<Row>, cols: set<string>, w: Where, f: string)
    requires Agree(a, b, cols) && w.Keys <= cols && f in cols
    ensures MaxOf(a, w, f) == MaxOf(b, w, f)
  {
    if a != [] {
      assert Agree(a[1..], b[1..], cols) by {
        forall i, c | 0 <= i < |a[1..]| && c in cols ensures Get(a[1..][i], c) == Get(b[1..][i], c) {
          assert a[1..][i] == a[i + 1] && b[1..][i] == b[i + 1];
        }
      }
      AgreeMax(a[1..], b[1..], cols, w, f);
      assert Matches(a[0], w) <==> Matches(b[0], w) by {
        assert forall k :: k in w ==> Get(a[0], k) == Get(b[0], k);
      }
      assert Get(a[0], f) == Get(b[0], f);
    }
  }

  /** Without a partition column, the partition is the whole table. */
  lemma {:induction false} PartitionNone(rows: seq<Row>, parent: Value)
    ensures Partition(rows, None, parent) == rows
  {
    if rows != [] {
      PartitionNone(rows[1..], parent);
      assert rows == [rows[0]] + rows[1..];
    }
  }
}
