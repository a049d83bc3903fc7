/** The already-joined fact table: rows of named cells, group keys, and the
    semi-join that keeps the rows of chosen groups. */
module Tables {
  import opened Collections

  /** A cell. Categorical and numeric values are opaque here; `Null` is the
      missing value that grouping drops. */
  datatype Value = Null | Num(n: int) | Text(s: string)

  type Column = string
  type Row = map<Column, Value>

  /** The values of the grouping columns, in the order of the columns. */
  type KeyTuple = seq<Value>

  datatype Table = Table(columns: set<Column>, rows: seq<Row>)

  /** A data frame is rectangular: every row has exactly the table's columns. */
  predicate WellFormed(t: Table) {
    forall r :: r in t.rows ==> r.Keys == t.columns
  }

  predicate HasDims(r: Row, dims: seq<Column>) {
    forall d :: d in dims ==> d in r
  }

  predicate AllHaveDims(rows: seq<Row>, dims: seq<Column>) {
    forall r :: r in rows ==> HasDims(r, dims)
  }

  /** The group key of a row. */
  function Key(r: Row, dims: seq<Column>): KeyTuple
    requires HasDims(r, dims)
  {
    seq(|dims|, j requires 0 <= j < |dims| => r[dims[j]])
  }

  predicate NullFree(k: KeyTuple) {
    forall j :: 0 <= j < |k| ==> k[j] != Null
  }

  /** Some row of `rows` has key `k`. */
  predicate Present(rows: seq<Row>, dims: seq<Column>, k: KeyTuple)
    requires AllHaveDims(rows, dims)
  {
    exists r :: r in rows && Key(r, dims) == k
  }

  /** Inner join of `rows` with a table indexed by `keys`: the rows whose
      key is one of `keys`, in their original order, each as often as in
      `rows`. */
  function SemiJoin(rows: seq<Row>, dims: seq<Column>, keys: set<KeyTuple>): (out: seq<Row>)
    requires AllHaveDims(rows, dims)
    ensures multiset(out) <= multiset(rows)
    ensures forall r :: r in out ==> r in rows && Key(r, dims) in keys
    ensures forall r :: r in rows ==>
      multiset(out)[r] == if Key(r, dims) in keys then multiset(rows)[r] else 0
    decreases |rows|
  {
    if rows == [] then []
    else
      assert rows == [rows[0]] + rows[1..];
      var rest := SemiJoin(rows[1..], dims, keys);
      if Key(rows[0], dims) in keys then [rows[0]] + rest else rest
  }

  /** The distinct null-free keys present in `rows`, in order of first
      appearance: the groups of a grouping that drops null keys. */
  function KeysOf(rows: seq<Row>, dims: seq<Column>): (ks: seq<KeyTuple>)
    requires AllHaveDims(rows, dims)
    ensures Distinct(ks)
    ensures forall k :: k in ks ==> NullFree(k) && Present(rows, dims, k)
    ensures forall r :: r in rows && NullFree(Key(r, dims)) ==> Key(r, dims) in ks
    decreases |rows|
  {
    if rows == [] then []
    else
      var init := rows[..|rows| - 1];
      var last := rows[|rows| - 1];
      assert rows == init + [last];
      var ks := KeysOf(init, dims);
      var k := Key(last, dims);
      if NullFree(k) && k !in ks then ks + [k] else ks
  }

  /** The group of key `k`: the rows with that key. */
  function Group(rows: seq<Row>, dims: seq<Column>, k: KeyTuple): seq<Row>
    requires AllHaveDims(rows, dims)
  {
    SemiJoin(rows, dims, {k})
  }

  /** A present key has a non-empty group. */
  lemma GroupNonEmpty(rows: seq<Row>, dims: seq<Column>, k: KeyTuple)
    requires AllHaveDims(rows, dims) && Present(rows, dims, k)
    ensures Group(rows, dims, k) != []
  {
    var r :| r in rows && Key(r, dims) == k;
    assert multiset(Group(rows, dims, k))[r] > 0;
  }

  /** Narrowing a table keeps its rows rectangular. */
  lemma SubRowsWellFormed(t: Table, rows: seq<Row>)
    requires WellFormed(t) && multiset(rows) <= multiset(t.rows)
    ensures WellFormed(Table(t.columns, rows))
  {
    forall r | r in rows ensures r in t.rows {
      assert multiset(rows)[r] > 0;
    }
  }
}
