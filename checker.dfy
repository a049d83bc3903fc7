/** The test-side check that pruning worked: a record of every cut's
    pruned keys, and a check that none of them still matches a row. */
module Checker {
  import opened Tables

  /** One entry of the checker's `to_ignore`: a cut and its pruned keys. */
  datatype Entry = Entry(dims: seq<Column>, combos: seq<KeyTuple>)

  /** `zip(dims, combo)` filtering keeps the row: it holds the combination's
      values in the dimensions they are zipped with. */
  predicate Matches(r: Row, dims: seq<Column>, combo: KeyTuple)
    requires HasDims(r, dims)
  {
    forall p :: 0 <= p < |dims| && p < |combo| ==> r[dims[p]] == combo[p]
  }

  predicate LogHasDims(raw: seq<Row>, log: seq<Entry>) {
    forall a :: 0 <= a < |log| ==> AllHaveDims(raw, log[a].dims)
  }

  /** No row of `raw` belongs to any pruned group of any recorded cut. */
  predicate NoLeak(raw: seq<Row>, log: seq<Entry>)
    requires LogHasDims(raw, log)
  {
    forall a, j, r :: 0 <= a < |log| && 0 <= j < |log[a].combos| && r in raw ==>
      !Matches(r, log[a].dims, log[a].combos[j])
  }

  /** A row matches a full-length key only if that key is its own. */
  lemma OtherKeyNoMatch(r: Row, dims: seq<Column>, k: KeyTuple)
    requires HasDims(r, dims) && |k| == |dims| && Key(r, dims) != k
    ensures !Matches(r, dims, k)
  {
    var j :| 0 <= j < |k| && Key(r, dims)[j] != k[j];
  }

  /** A narrower table leaks no more than the table it came from. */
  lemma NoLeakSub(sub: seq<Row>, raw: seq<Row>, log: seq<Entry>)
    requires forall r :: r in sub ==> r in raw
    requires LogHasDims(raw, log) && NoLeak(raw, log)
    ensures LogHasDims(sub, log) && NoLeak(sub, log)
  {
  }

  lemma NoLeakAppend(raw: seq<Row>, log: seq<Entry>, e: Entry)
    requires LogHasDims(raw, log) && NoLeak(raw, log)
    requires LogHasDims(raw, [e]) && NoLeak(raw, [e])
    ensures LogHasDims(raw, log + [e]) && NoLeak(raw, log + [e])
  {
    var l := log + [e];
    forall a | 0 <= a < |l| ensures AllHaveDims(raw, l[a].dims) {
      if a == |log| { assert l[a] == [e][0]; } else { assert l[a] == log[a]; }
    }
    forall a, j, r | 0 <= a < |l| && 0 <= j < |l[a].combos| && r in raw
      ensures !Matches(r, l[a].dims, l[a].combos[j])
    {
      if a == |log| { assert l[a] == [e][0]; } else { assert l[a] == log[a]; }
    }
  }

  /** Every recorded entry of `sub` is one of `log`. */
  lemma NoLeakSubLog(raw: seq<Row>, log: seq<Entry>, sub: seq<Entry>)
    requires forall e :: e in sub ==> e in log
    requires LogHasDims(raw, log) && NoLeak(raw, log)
    ensures LogHasDims(raw, sub) && NoLeak(raw, sub)
  {
    forall a | 0 <= a < |sub| ensures AllHaveDims(raw, sub[a].dims) {
      assert sub[a] in log;
    }
    forall a, j, r | 0 <= a < |sub| && 0 <= j < |sub[a].combos| && r in raw
      ensures !Matches(r, sub[a].dims, sub[a].combos[j])
    {
      assert sub[a] in log;
      var b :| 0 <= b < |log| && log[b] == sub[a];
    }
  }

  /** `to_ignore[tuple(dims)] = combos`: a dictionary update, which replaces
      the entry of `dims` where it stands or appends a new one. */
  function Assign(log: seq<Entry>, dims: seq<Column>, combos: seq<KeyTuple>): (r: seq<Entry>)
    ensures Entry(dims, combos) in r
    ensures forall e :: e in r ==> e in log || e == Entry(dims, combos)
    ensures (forall e :: e in log ==> e.dims != dims) ==> r == log + [Entry(dims, combos)]
  {
    if log == [] then [Entry(dims, combos)]
    else if log[0].dims == dims then [Entry(dims, combos)] + log[1..]
    else [log[0]] + Assign(log[1..], dims, combos)
  }

  /** A cut already recorded has its entry replaced where it stands, at the
      first index that records it. */
  lemma {:induction false} AssignReplaces(log: seq<Entry>, dims: seq<Column>, combos: seq<KeyTuple>, i: nat)
    requires i < |log| && log[i].dims == dims && forall j :: 0 <= j < i ==> log[j].dims != dims
    ensures Assign(log, dims, combos) == log[i := Entry(dims, combos)]
  {
    var e := Entry(dims, combos);
    if i == 0 {
      assert [e] + log[1..] == log[0 := e];
    } else {
      assert log[0].dims != dims;
      AssignReplaces(log[1..], dims, combos, i - 1);
      assert [log[0]] + log[1..][i - 1 := e] == log[i := e];
    }
  }

  /** The first index whose entry records `dims`, given some index that does. */
  lemma {:induction false} FirstWith(log: seq<Entry>, dims: seq<Column>, i: nat) returns (f: nat)
    requires i < |log| && log[i].dims == dims
    ensures f <= i && log[f].dims == dims && forall j :: 0 <= j < f ==> log[j].dims != dims
    decreases i
  {
    if exists j :: 0 <= j < i && log[j].dims == dims {
      var j :| 0 <= j < i && log[j].dims == dims;
      f := FirstWith(log, dims, j);
    } else {
      f := i;
    }
  }

  /** The record is a dictionary keyed by cut: no cut has two entries. */
  predicate DistinctCuts(log: seq<Entry>) {
    forall a, b :: 0 <= a < b < |log| ==> log[a].dims != log[b].dims
  }

  /** Recording a cut keeps every other cut's entry; in a record with one
      entry per cut, the new entry is the only one left for that cut, and
      the record still has one entry per cut. */
  lemma AssignKeepsOthers(log: seq<Entry>, dims: seq<Column>, combos: seq<KeyTuple>)
    ensures forall e :: e in log && e.dims != dims ==> e in Assign(log, dims, combos)
    ensures DistinctCuts(log) ==> DistinctCuts(Assign(log, dims, combos))
    ensures DistinctCuts(log) ==>
      forall e :: e in Assign(log, dims, combos) && e.dims == dims ==> e == Entry(dims, combos)
  {
    if i :| 0 <= i < |log| && log[i].dims == dims {
      var f := FirstWith(log, dims, i);
      AssignReplaces(log, dims, combos, f);
      UpdateKeepsOthers(log, f, Entry(dims, combos));
    } else {
      assert forall e :: e in log ==> e.dims != dims;
      AppendKeepsOthers(log, Entry(dims, combos));
    }
  }

  lemma AssignDistinct(log: seq<Entry>, dims: seq<Column>, combos: seq<KeyTuple>)
    requires DistinctCuts(log)
    ensures DistinctCuts(Assign(log, dims, combos))
  {
    AssignKeepsOthers(log, dims, combos);
  }

  lemma UpdateKeepsOthers(log: seq<Entry>, f: nat, e: Entry)
    requires f < |log| && log[f].dims == e.dims
    ensures forall x :: x in log && x.dims != e.dims ==> x in log[f := e]
    ensures DistinctCuts(log) ==> DistinctCuts(log[f := e])
    ensures DistinctCuts(log) ==> forall x :: x in log[f := e] && x.dims == e.dims ==> x == e
  {
    var r := log[f := e];
    forall x | x in log && x.dims != e.dims ensures x in r {
      var k :| 0 <= k < |log| && log[k] == x;
      assert r[k] == x;
    }
    if DistinctCuts(log) {
      assert forall k :: 0 <= k < |log| ==> r[k].dims == log[k].dims;
      forall x | x in r && x.dims == e.dims ensures x == e {
        var k :| 0 <= k < |r| && r[k] == x;
        if k != f { assert false; }
      }
    }
  }

  lemma AppendKeepsOthers(log: seq<Entry>, e: Entry)
    requires forall x :: x in log ==> x.dims != e.dims
    ensures DistinctCuts(log) ==> DistinctCuts(log + [e])
    ensures forall x :: x in log + [e] && x.dims == e.dims ==> x == e
  {
    var r := log + [e];
    if DistinctCuts(log) {
      forall a, b | 0 <= a < b < |r| ensures r[a].dims != r[b].dims {
        assert r[a] == log[a] && log[a] in log;
      }
    }
  }

  /** `raw_data[raw_data[col] == val]`: the rows holding `val` in `col`. */
  function WhereEq(rows: seq<Row>, col: Column, val: Value): (out: seq<Row>)
    requires forall r :: r in rows ==> col in r
    ensures forall r :: r in out <==> r in rows && r[col] == val
  {
    if rows == [] then []
    else
      var rest := WhereEq(rows[1..], col, val);
      assert forall r :: r in rows <==> r == rows[0] || r in rows[1..];
      if rows[0][col] == val then [rows[0]] + rest else rest
  }

  /** The fixture of `assert_algo_validity`: `to_ignore` outlives each call
      of the check, which records one cut and then checks every cut
      recorded so far. */
  class BlacklistChecker {
    var toIgnore: seq<Entry>

    constructor ()
      ensures toIgnore == [] && DistinctCuts(toIgnore)
    {
      toIgnore := [];
    }

    /** `ensure_no_blacklisted_data`, with every pruned combination checked
        against a fresh copy of the data: `ok` is false exactly when some
        row of `rawData` still matches some recorded pruned key. */
    method EnsureNoBlacklistedData(dims: seq<Column>, ignored: seq<KeyTuple>, rawData: seq<Row>) returns (ok: bool)
      requires LogHasDims(rawData, toIgnore) && AllHaveDims(rawData, dims)
      modifies this
      ensures toIgnore == Assign(old(toIgnore), dims, ignored)
      ensures LogHasDims(rawData, toIgnore)
      ensures ok <==> NoLeak(rawData, toIgnore)
      ensures DistinctCuts(old(toIgnore)) ==> DistinctCuts(toIgnore)
    {
      if DistinctCuts(toIgnore) {
        AssignDistinct(toIgnore, dims, ignored);
      }
      AssignHasDims(rawData, toIgnore, dims, ignored);
      toIgnore := Assign(toIgnore, dims, ignored);
      ok := ScanRecord(toIgnore, rawData);
    }
  }

  /** Recording a cut whose columns the data has keeps every recorded cut's
      columns present. */
  lemma AssignHasDims(raw: seq<Row>, log: seq<Entry>, dims: seq<Column>, combos: seq<KeyTuple>)
    requires LogHasDims(raw, log) && AllHaveDims(raw, dims)
    ensures LogHasDims(raw, Assign(log, dims, combos))
  {
    var r := Assign(log, dims, combos);
    forall a | 0 <= a < |r| ensures AllHaveDims(raw, r[a].dims) {
      assert r[a] in r;
      if r[a] != Entry(dims, combos) {
        var b :| 0 <= b < |log| && log[b] == r[a];
      }
    }
  }

  /** The nested loops of the check: for each recorded cut and each of its
      pruned combinations, a fresh copy of the data is filtered column by
      column, and any row left over is a leak. */
  method ScanRecord(log: seq<Entry>, rawData: seq<Row>) returns (ok: bool)
    requires LogHasDims(rawData, log)
    ensures ok <==> NoLeak(rawData, log)
  {
    var i := 0;
    while i < |log|
      invariant 0 <= i <= |log|
      invariant forall a, j, r :: 0 <= a < i && 0 <= j < |log[a].combos| && r in rawData ==>
        !Matches(r, log[a].dims, log[a].combos[j])
    {
      var e := log[i];
      var j := 0;
      while j < |e.combos|
        invariant 0 <= j <= |e.combos|
        invariant forall q, r :: 0 <= q < j && r in rawData ==> !Matches(r, e.dims, e.combos[q])
      {
        var combo := e.combos[j];
        var remaining := rawData;
        var p := 0;
        while p < |e.dims| && p < |combo|
          invariant 0 <= p <= |e.dims| && p <= |combo|
          invariant forall r :: r in remaining <==>
            r in rawData && forall q :: 0 <= q < p ==> r[e.dims[q]] == combo[q]
        {
          remaining := WhereEq(remaining, e.dims[p], combo[p]);
          p := p + 1;
        }
        if remaining != [] {
          assert remaining[0] in remaining;
          assert Matches(remaining[0], e.dims, combo);
          return false;
        }
        j := j + 1;
      }
      i := i + 1;
    }
    return true;
  }

  // ---------------------------------------------------------------- as written

  /** One combination visited by the check, with the cut it belongs to. */
  datatype Visit = Visit(dims: seq<Column>, combo: KeyTuple)

  /** The tuple a key becomes before it is zipped: a key of one value comes
      back from the index as that value, and is wrapped in a one-element
      tuple unless it is iterable, which a string is; a string key is then
      zipped character by character. */
  function AsWrittenCombo(k: KeyTuple): KeyTuple {
    if |k| == 1 && k[0].Text? then
      seq(|k[0].s|, i requires 0 <= i < |k[0].s| => Text([k[0].s[i]]))
    else k
  }

  /** The combinations, as zipped, in the order the nested loops visit them. */
  function Visits(log: seq<Entry>): (vs: seq<Visit>)
    ensures forall v :: v in vs ==> exists a :: 0 <= a < |log| && v.dims == log[a].dims
  {
    if log == [] then []
    else
      seq(|log[0].combos|, j requires 0 <= j < |log[0].combos| => Visit(log[0].dims, AsWrittenCombo(log[0].combos[j])))
        + Visits(log[1..])
  }

  predicate VisitsHaveDims(raw: seq<Row>, vs: seq<Visit>) {
    forall v :: v in vs ==> AllHaveDims(raw, v.dims)
  }

  /** The rows that match `combo` on `dims`. */
  function WhereMatch(rows: seq<Row>, dims: seq<Column>, combo: KeyTuple): (out: seq<Row>)
    requires AllHaveDims(rows, dims)
    ensures forall r :: r in out <==> r in rows && Matches(r, dims, combo)
  {
    if rows == [] then []
    else
      var rest := WhereMatch(rows[1..], dims, combo);
      assert forall r :: r in rows <==> r == rows[0] || r in rows[1..];
      if Matches(rows[0], dims, combo) then [rows[0]] + rest else rest
  }

  /** `ensure_no_blacklisted_data` as written: one copy of the data is
      narrowed by each visited combination in turn, and must be empty after
      each one. */
  function CumulativeCheck(raw: seq<Row>, vs: seq<Visit>): bool
    requires VisitsHaveDims(raw, vs)
    decreases |vs|
  {
    if vs == [] then true
    else
      var narrowed := WhereMatch(raw, vs[0].dims, vs[0].combo);
      narrowed == [] && CumulativeCheck(narrowed, vs[1..])
  }

  /** Once the first combination empties the copy, every later one passes
      unchecked: a row with a later pruned key is let through. */
  lemma CumulativeCheckMissesLeak()
    ensures var raw := [map["A" := Num(2)]];
      var log := [Entry(["A"], [[Num(1)], [Num(2)]])];
      && LogHasDims(raw, log) && VisitsHaveDims(raw, Visits(log))
      && CumulativeCheck(raw, Visits(log))
      && !NoLeak(raw, log)
  {
    var row: Row := map["A" := Num(2)];
    var raw := [row];
    var dims: seq<Column> := ["A"];
    var k1: KeyTuple := [Num(1)];
    var k2: KeyTuple := [Num(2)];
    var log := [Entry(dims, [k1, k2])];
    var vs := Visits(log);
    assert Visits(log[1..]) == [];
    assert vs == [Visit(dims, k1), Visit(dims, k2)];
    assert row[dims[0]] != k1[0];
    assert WhereMatch(raw, dims, k1) == [];
    assert CumulativeCheck([], vs[1..]);
    assert Matches(row, log[0].dims, log[0].combos[1]);
    assert row in raw && |log[0].combos| == 2;
  }

  /** A row whose one-dimension key is a string of two or more characters is
      never matched, so the check passes with that key pruned and the row
      still present. */
  lemma StringKeyEscapesCheck()
    ensures var raw := [map["A" := Text("ab")]];
      var log := [Entry(["A"], [[Text("ab")]])];
      && LogHasDims(raw, log) && VisitsHaveDims(raw, Visits(log))
      && CumulativeCheck(raw, Visits(log))
      && !NoLeak(raw, log)
  {
    var row: Row := map["A" := Text("ab")];
    var raw := [row];
    var dims: seq<Column> := ["A"];
    var k: KeyTuple := [Text("ab")];
    var zipped: KeyTuple := [Text("a"), Text("b")];
    var log := [Entry(dims, [k])];
    assert AsWrittenCombo(k) == zipped;
    assert Visits(log[1..]) == [];
    var vs := Visits(log);
    assert vs == [Visit(dims, zipped)];
    assert row[dims[0]] != zipped[0];
    assert WhereMatch(raw, dims, zipped) == [];
    assert CumulativeCheck([], vs[1..]);
    assert Matches(row, log[0].dims, log[0].combos[0]);
    assert row in raw && |log[0].combos| == 1;
  }
}
