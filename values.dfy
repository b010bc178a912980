/**
 * PHP scalars as they appear in rows, settings and option arrays, and the few
 * PHP conversions the ORM relies on: truthiness, `is_numeric`, string casts,
 * `implode`, `strtolower` and the snake-casing regular expression.
 */
module Values {

  datatype Option<+T> = None | Some(value: T)

  /** A scalar stored in a row or passed as an option. */
  datatype Value = VNull | VBool(b: bool) | VInt(i: int) | VStr(s: string)

  /** A table row, or any string-keyed PHP array of scalars. */
  type Row = map<string, Value>

  /** PHP truthiness: null, false, 0, "" and "0" are falsy. */
  predicate Truthy(v: Value)
  {
    match v
    case VNull => false
    case VBool(b) => b
    case VInt(i) => i != 0
    case VStr(s) => s != "" && s != "0"
  }

  /** `isset($r[$k]) ? $r[$k] : null`, and what PHP reads for a missing key. */
  function Get(r: Row, k: string): Value
  {
    if k in r then r[k] else VNull
  }

  /** `isset($r[$k])`: present and not null. */
  predicate IsSet(r: Row, k: string)
  {
    k in r && r[k] != VNull
  }

  /** A name PHP treats as truthy (used for table names, fields and keys). */
  predicate Named(s: string)
  {
    Truthy(VStr(s))
  }

  // ---------------------------------------------------------------------------
  // Decimal integers

  predicate IsDigit(c: char)
  {
    '0' <= c <= '9'
  }

  predicate AllDigits(s: string)
  {
    forall i :: 0 <= i < |s| ==> IsDigit(s[i])
  }

  function DigitsValue(s: string): nat
    requires AllDigits(s)
  {
    if s == [] then 0
    else DigitsValue(s[..|s| - 1]) * 10 + ((s[|s| - 1] as int) - ('0' as int))
  }

  function DigitChar(d: nat): (c: char)
    requires d < 10
    ensures IsDigit(c) && (c as int) - ('0' as int) == d
  {
    (('0' as int) + d) as char
  }

  function NatToString(n: nat): (s: string)
    ensures |s| > 0 && AllDigits(s)
  {
    if n < 10 then [DigitChar(n)] else NatToString(n / 10) + [DigitChar(n % 10)]
  }

  /** PHP's string cast of an integer. */
  function IntToString(i: int): string
  {
    if i < 0 then "-" + NatToString(-i) else NatToString(i)
  }

  /** The integer a decimal string denotes: an optional '-' followed by digits. */
  function ParseDecimal(s: string): Option<int>
  {
    if |s| > 1 && s[0] == '-' && AllDigits(s[1..]) then Some(0 - DigitsValue(s[1..]) as int)
    else if |s| > 0 && AllDigits(s) then Some(DigitsValue(s))
    else None
  }

  lemma {:induction false} DigitsOfNat(n: nat)
    ensures DigitsValue(NatToString(n)) == n
  {
    if n >= 10 {
      DigitsOfNat(n / 10);
      var s := NatToString(n);
      assert s[..|s| - 1] == NatToString(n / 10);
    }
  }

  /** Parsing the string cast of an integer gives the integer back. */
  lemma ParseIntToString(i: int)
    ensures ParseDecimal(IntToString(i)) == Some(i)
  {
    if i < 0 {
      var t := NatToString(-i);
      DigitsOfNat(-i);
      assert ("-" + t)[1..] == t;
    } else {
      DigitsOfNat(i);
      var s := NatToString(i);
      assert IsDigit(s[0]);
    }
  }

  /** The integer SQL comparisons, MAX and PHP's loose `==` read from a value. */
  function Numeric(v: Value): Option<int>
  {
    match v
    case VNull => None
    case VBool(b) => Some(if b then 1 else 0)
    case VInt(i) => Some(i)
    case VStr(s) => ParseDecimal(s)
  }

  /** PHP `is_numeric`, restricted to decimal integers. */
  predicate IsNumeric(v: Value)
  {
    match v
    case VInt(_) => true
    case VStr(s) => ParseDecimal(s).Some?
    case _ => false
  }

  /** PHP's string cast, as `implode` applies it. */
  function ToStr(v: Value): string
  {
    match v
    case VNull => ""
    case VBool(b) => if b then "1" else ""
    case VInt(i) => IntToString(i)
    case VStr(s) => s
  }

  /**
   * The key PHP stores an array entry under: integers and canonical decimal
   * strings become integers, booleans become 0 or 1, null becomes "".
   */
  function ArrayKey(v: Value): (k: Value)
    ensures k.VInt? || k.VStr?
  {
    match v
    case VNull => VStr("")
    case VBool(b) => VInt(if b then 1 else 0)
    case VInt(i) => v
    case VStr(s) =>
      var n := ParseDecimal(s);
      if n.Some? && IntToString(n.value) == s then VInt(n.value) else v
  }

  /** `5` and `"5"` address the same array slot; `false` addresses slot 0. */
  lemma ArrayKeyOfIntString(i: int)
    ensures ArrayKey(VStr(IntToString(i))) == ArrayKey(VInt(i)) == VInt(i)
    ensures ArrayKey(VBool(false)) == VInt(0)
  {
    ParseIntToString(i);
  }

  // ---------------------------------------------------------------------------
  // implode / explode

  /** `implode(sep, parts)`. */
  function Join(parts: seq<string>, sep: char): string
  {
    if |parts| == 0 then ""
    else if |parts| == 1 then parts[0]
    else parts[0] + [sep] + Join(parts[1..], sep)
  }

  /** `explode(sep, s)`: the pieces between occurrences of `sep`. */
  function Split(s: string, sep: char): (r: seq<string>)
    ensures |r| > 0
  {
    if s == "" then [""]
    else if s[0] == sep then [""] + Split(s[1..], sep)
    else
      var rest := Split(s[1..], sep);
      [[s[0]] + rest[0]] + rest[1..]
  }

  lemma {:induction false} SplitNoSep(a: string, sep: char)
    requires sep !in a
    ensures Split(a, sep) == [a]
  {
    if a != "" {
      SplitNoSep(a[1..], sep);
      assert [a[0]] + a[1..] == a;
    }
  }

  lemma {:induction false} SplitAfterPiece(a: string, sep: char, b: string)
    requires sep !in a
    ensures Split(a + [sep] + b, sep) == [a] + Split(b, sep)
  {
    if a == "" {
      assert a + [sep] + b == [sep] + b;
      assert ([sep] + b)[1..] == b;
    } else {
      SplitAfterPiece(a[1..], sep, b);
      assert (a + [sep] + b)[1..] == a[1..] + [sep] + b;
      assert [a[0]] + a[1..] == a;
    }
  }

  /** Splitting a join gives the pieces back when no piece contains the separator. */
  lemma {:induction false} SplitJoin(parts: seq<string>, sep: char)
    requires |parts| > 0
    requires forall i :: 0 <= i < |parts| ==> sep !in parts[i]
    ensures Split(Join(parts, sep), sep) == parts
  {
    if |parts| == 1 {
      SplitNoSep(parts[0], sep);
    } else {
      SplitJoin(parts[1..], sep);
      SplitAfterPiece(parts[0], sep, Join(parts[1..], sep));
      assert [parts[0]] + parts[1..] == parts;
    }
  }

  // ---------------------------------------------------------------------------
  // strtolower and the snake-casing of class names

  predicate IsUpper(c: char)
  {
    'A' <= c <= 'Z'
  }

  function LowerChar(c: char): char
  {
    if IsUpper(c) then ((c as int) + 32) as char else c
  }

  /** `strtolower` on ASCII letters. */
  function Lower(s: string): string
  {
    if s == "" then "" else [LowerChar(s[0])] + Lower(s[1..])
  }

  /** `preg_replace('/(?<!^)([A-Z])/', '_\1', s)` applied after the first character. */
  function UnderscoreRest(s: string): string
  {
    if s == "" then ""
    else (if IsUpper(s[0]) then "_" + [s[0]] else [s[0]]) + UnderscoreRest(s[1..])
  }

  /** `strtolower(preg_replace('/(?<!^)([A-Z])/', '_\1', s))`. */
  function SnakeCase(s: string): string
  {
    if s == "" then "" else Lower([s[0]] + UnderscoreRest(s[1..]))
  }

  lemma {:induction false} LowerHasNoUpper(s: string)
    ensures forall i :: 0 <= i < |Lower(s)| ==> !IsUpper(Lower(s)[i])
    ensures |Lower(s)| == |s|
  {
    if s != "" {
      LowerHasNoUpper(s[1..]);
    }
  }

  lemma {:induction false} LowerOfLower(s: string)
    requires forall i :: 0 <= i < |s| ==> !IsUpper(s[i])
    ensures Lower(s) == s
  {
    if s != "" {
      LowerOfLower(s[1..]);
      assert [s[0]] + s[1..] == s;
    }
  }

  lemma {:induction false} UnderscoreRestOfLower(s: string)
    requires forall i :: 0 <= i < |s| ==> !IsUpper(s[i])
    ensures UnderscoreRest(s) == s
  {
    if s != "" {
      UnderscoreRestOfLower(s[1..]);
      assert [s[0]] + s[1..] == s;
    }
  }

  /** A snake-cased name never contains an upper-case letter. */
  lemma SnakeCaseIsLower(s: string)
    ensures forall i :: 0 <= i < |SnakeCase(s)| ==> !IsUpper(SnakeCase(s)[i])
  {
    if s != "" {
      LowerHasNoUpper([s[0]] + UnderscoreRest(s[1..]));
    }
  }

  /** A name that is already lower-case is its own snake case. */
  lemma SnakeCaseOfLowerName(s: string)
    requires forall i :: 0 <= i < |s| ==> !IsUpper(s[i])
    ensures SnakeCase(s) == s
  {
    if s != "" {
      UnderscoreRestOfLower(s[1..]);
      assert [s[0]] + s[1..] == s;
      LowerOfLower(s);
    }
  }

  // ---------------------------------------------------------------------------
  // String-keyed PHP arrays that keep insertion order

  /** An ordered PHP array with string keys: `$a[$k] = $v` keeps the slot of an existing key. */
  type Dict<V> = seq<(string, V)>

  function DictKeys<V>(d: Dict<V>): (ks: seq<string>)
    ensures |ks| == |d|
    ensures forall i :: 0 <= i < |d| ==> ks[i] == d[i].0
  {
    if d == [] then [] else [d[0].0] + DictKeys(d[1..])
  }

  predicate UniqueKeyed<V>(d: Dict<V>)
  {
    forall i, j :: 0 <= i < j < |d| ==> d[i].0 != d[j].0
  }

  function Lookup<V>(d: Dict<V>, k: string): (r: Option<V>)
    ensures r.Some? <==> k in DictKeys(d)
    ensures r.Some? ==> exists i :: 0 <= i < |d| && d[i] == (k, r.value)
  {
    if d == [] then None else if d[0].0 == k then Some(d[0].1) else Lookup(d[1..], k)
  }

  /** `$d[$k] = $v`. */
  function Put<V>(d: Dict<V>, k: string, v: V): (r: Dict<V>)
    ensures |r| == if k in DictKeys(d) then |d| else |d| + 1
    ensures k !in DictKeys(d) ==> r == d + [(k, v)]
    ensures forall i :: 0 <= i < |d| && d[i].0 != k ==> r[i] == d[i]
  {
    if d == [] then [(k, v)]
    else if d[0].0 == k then [(k, v)] + d[1..]
    else [d[0]] + Put(d[1..], k, v)
  }

  /** `$d[$k] = $v` keeps the key order, adding `k` at the end when it is new. */
  lemma {:induction false} PutKeys<V>(d: Dict<V>, k: string, v: V)
    ensures k in DictKeys(d) ==> DictKeys(Put(d, k, v)) == DictKeys(d)
    ensures k !in DictKeys(d) ==> DictKeys(Put(d, k, v)) == DictKeys(d) + [k]
  {
    if d != [] && d[0].0 != k {
      PutKeys(d[1..], k, v);
      assert DictKeys(d) == [d[0].0] + DictKeys(d[1..]);
    }
  }

  /** After `$d[$k] = $v` the key reads `v`, the other keys read as before, and keys stay unique. */
  lemma PutLookup<V>(d: Dict<V>, k: string, v: V, k2: string)
    requires UniqueKeyed(d)
    ensures UniqueKeyed(Put(d, k, v))
    ensures Lookup(Put(d, k, v), k) == Some(v)
    ensures k2 != k ==> Lookup(Put(d, k, v), k2) == Lookup(d, k2)
  {
    PutKeys(d, k, v);
    var r := Put(d, k, v);
    assert forall i :: 0 <= i < |r| ==> r[i].0 == DictKeys(r)[i];
    PutLookupAt(d, k, v, k2);
  }

  lemma {:induction false} PutLookupAt<V>(d: Dict<V>, k: string, v: V, k2: string)
    ensures Lookup(Put(d, k, v), k) == Some(v)
    ensures k2 != k ==> Lookup(Put(d, k, v), k2) == Lookup(d, k2)
  {
    if d != [] && d[0].0 != k {
      PutLookupAt(d[1..], k, v, k2);
    }
  }

  /** In a dictionary without repeated keys, each entry is what its key looks up. */
  lemma {:induction false} LookupAt<V>(d: Dict<V>, i: int)
    requires UniqueKeyed(d) && 0 <= i < |d|
    ensures Lookup(d, d[i].0) == Some(d[i].1)
  {
    if i > 0 {
      var t := d[1..];
      assert UniqueKeyed(t) by {
        forall a, b | 0 <= a < b < |t|
          ensures t[a].0 != t[b].0
        {
          assert t[a] == d[a + 1] && t[b] == d[b + 1];
        }
      }
      LookupAt(t, i - 1);
      assert t[i - 1] == d[i];
    }
  }
}
