/**
 * Queries over a table held as a sequence of rows in primary-key order: the first row a
 * filter matches (`query.filter_by(...).first()`, `query.get(id)`), the rows it keeps
 * (`[x for x in rows if ...]`), and a change applied to every row.
 */
module Query {
  import opened Wrappers

  /** Position of the first row satisfying `p`. */
  function FindFirst<T>(rows: seq<T>, p: T -> bool): (r: Option<nat>)
    ensures r.Some? ==> r.value < |rows| && p(rows[r.value])
    ensures r.Some? ==> forall j :: 0 <= j < r.value ==> !p(rows[j])
    ensures r.None? <==> forall j :: 0 <= j < |rows| ==> !p(rows[j])
  {
    if |rows| == 0 then None
    else if p(rows[0]) then Some(0)
    else match FindFirst(rows[1..], p)
      case None => None
      case Some(k) => Some(k + 1)
  }

  /** The first row satisfying `p`, if any. */
  function First<T>(rows: seq<T>, p: T -> bool): (r: Option<T>)
    ensures r.Some? ==> r.value in rows && p(r.value)
    ensures r.None? <==> forall j :: 0 <= j < |rows| ==> !p(rows[j])
  {
    match FindFirst(rows, p)
    case None => None
    case Some(i) => Some(rows[i])
  }

  /** The rows satisfying `p`, in their order. */
  function Filter<T>(rows: seq<T>, p: T -> bool): (r: seq<T>)
    ensures |r| <= |rows|
    ensures forall j :: 0 <= j < |r| ==> r[j] in rows && p(r[j])
    ensures forall j :: 0 <= j < |rows| && p(rows[j]) ==> rows[j] in r
  {
    if |rows| == 0 then []
    else (if p(rows[0]) then [rows[0]] else []) + Filter(rows[1..], p)
  }

  /** Filtering a table that grew at its end: the new rows that pass come last. */
  lemma {:induction false} FilterAppend<T>(a: seq<T>, b: seq<T>, p: T -> bool)
    ensures Filter(a + b, p) == Filter(a, p) + Filter(b, p)
  {
    if |a| == 0 {
      assert a + b == b;
    } else {
      assert (a + b)[1..] == a[1..] + b;
      FilterAppend(a[1..], b, p);
    }
  }

  /** Every row changed by `f`, in place. */
  function MapRows<T>(rows: seq<T>, f: T -> T): (r: seq<T>)
    ensures |r| == |rows|
    ensures forall j :: 0 <= j < |rows| ==> r[j] == f(rows[j])
  {
    seq(|rows|, j requires 0 <= j < |rows| => f(rows[j]))
  }

  /** No two rows share a key. */
  predicate KeysDistinct<T, K(==)>(rows: seq<T>, key: T -> K) {
    forall a, b :: 0 <= a < b < |rows| ==> key(rows[a]) != key(rows[b])
  }

  /** The table without the row at position `i` (`session.delete` of that row). */
  function RemoveAt<T>(rows: seq<T>, i: nat): (r: seq<T>)
    requires i < |rows|
    ensures |r| == |rows| - 1
    ensures forall j :: 0 <= j < i ==> r[j] == rows[j]
    ensures forall j :: i <= j < |r| ==> r[j] == rows[j + 1]
  {
    rows[..i] + rows[i + 1..]
  }

  /** Deleting a row keeps the keys distinct, and its key is gone from the table. */
  lemma RemoveAtKeepsKeys<T, K>(rows: seq<T>, i: nat, key: T -> K)
    requires i < |rows| && KeysDistinct(rows, key)
    ensures KeysDistinct(RemoveAt(rows, i), key)
    ensures forall j :: 0 <= j < |RemoveAt(rows, i)| ==> key(RemoveAt(rows, i)[j]) != key(rows[i])
  {
    var r := RemoveAt(rows, i);
    forall a, b | 0 <= a < b < |r| ensures key(r[a]) != key(r[b]) {
      var a' := if a < i then a else a + 1;
      var b' := if b < i then b else b + 1;
      assert r[a] == rows[a'] && r[b] == rows[b'];
    }
    forall j | 0 <= j < |r| ensures key(r[j]) != key(rows[i]) {
      var j' := if j < i then j else j + 1;
      assert r[j] == rows[j'];
    }
  }

  /** Rewriting one row without changing its key keeps the keys distinct. */
  lemma UpdateKeepsKeys<T, K>(rows: seq<T>, i: nat, x: T, key: T -> K)
    requires i < |rows| && key(x) == key(rows[i]) && KeysDistinct(rows, key)
    ensures KeysDistinct(rows[i := x], key)
  {
    var r := rows[i := x];
    forall a, b | 0 <= a < b < |r| ensures key(r[a]) != key(r[b]) {
      assert key(r[a]) == key(rows[a]) && key(r[b]) == key(rows[b]);
    }
  }

  /** Appending a row whose key is new keeps the keys distinct. */
  lemma AppendKeepsKeys<T, K>(rows: seq<T>, x: T, key: T -> K)
    requires KeysDistinct(rows, key)
    requires forall j :: 0 <= j < |rows| ==> key(rows[j]) != key(x)
    ensures KeysDistinct(rows + [x], key)
  {
    var r := rows + [x];
    forall a, b | 0 <= a < b < |r| ensures key(r[a]) != key(r[b]) {
      assert r[a] == rows[a];
    }
  }
}
