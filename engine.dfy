/** The metric computation engine: group a table by some dimensions, apply a
    metric to each group, and give every result a composite key made of a
    label and the group's parameter values. */
module Engine {
  import opened Collections
  import opened Tables

  /** A metric: an aggregation over the rows of one group, with the optional
      display name that the source attaches as a `label` attribute. */
  datatype Metric<R> = Metric(apply: seq<Row> -> R, name: Option<string>)

  /** One result row: exactly these three fields. */
  datatype MetricRow<R> = MetricRow(metricValue: R, parameters: map<Column, Value>, metricLabel: string)

  datatype Error =
    | NoGroupKeys                  // grouping by an empty list of columns
    | UnknownDimension(name: Column)  // grouping by a column the table lacks
    | NothingToConcatenate         // concatenating an empty list of results

  // ---------------------------------------------------------------- labels

  /** `", ".join(dims)` */
  function JoinDims(dims: seq<string>): string
  {
    if dims == [] then ""
    else if |dims| == 1 then dims[0]
    else dims[0] + ", " + JoinDims(dims[1..])
  }

  /** The metric label: the joined dimensions, prefixed by the metric's name
      and ": " when it has one. */
  function MetricLabel<R>(dims: seq<Column>, m: Metric<R>): string
  {
    match m.name
    case None => JoinDims(dims)
    case Some(name) => name + ": " + JoinDims(dims)
  }

  /** Splits at every ", ". */
  function SplitDims(s: string): (parts: seq<string>)
    ensures |parts| >= 1
  {
    if s == [] then [""]
    else if |s| >= 2 && s[0] == ',' && s[1] == ' ' then [""] + SplitDims(s[2..])
    else
      var rest := SplitDims(s[1..]);
      [[s[0]] + rest[0]] + rest[1..]
  }

  /** Splits at the first ": ", if there is one. */
  function SplitName(s: string): (Option<string>, string)
  {
    if |s| < 2 then (None, s)
    else if s[0] == ':' && s[1] == ' ' then (Some(""), s[2..])
    else match SplitName(s[1..])
      case (Some(name), rest) => (Some([s[0]] + name), rest)
      case (None, _) => (None, s)
  }

  /** Reads a label back into the metric name and the dimension list. */
  function ParseLabel(s: string): (Option<string>, seq<string>)
  {
    var (name, rest) := SplitName(s);
    (name, SplitDims(rest))
  }

  lemma {:induction false} SplitDimsPlain(d: string)
    requires ',' !in d
    ensures SplitDims(d) == [d]
  {
    if d != [] {
      SplitDimsPlain(d[1..]);
      assert [d[0]] + d[1..] == d;
    }
  }

  lemma {:induction false} SplitDimsCons(d: string, rest: string)
    requires ',' !in d
    ensures SplitDims(d + ", " + rest) == [d] + SplitDims(rest)
  {
    if d == [] {
      assert d + ", " + rest == ", " + rest;
      assert (", " + rest)[2..] == rest;
    } else {
      assert (d + ", " + rest)[1..] == d[1..] + ", " + rest;
      SplitDimsCons(d[1..], rest);
      assert [d[0]] + d[1..] == d;
    }
  }

  lemma {:induction false} SplitDimsJoin(dims: seq<string>)
    requires dims != [] && forall d :: d in dims ==> ',' !in d
    ensures SplitDims(JoinDims(dims)) == dims
  {
    if |dims| == 1 {
      SplitDimsPlain(dims[0]);
    } else {
      SplitDimsJoin(dims[1..]);
      SplitDimsCons(dims[0], JoinDims(dims[1..]));
      assert [dims[0]] + dims[1..] == dims;
    }
  }

  lemma {:induction false} SplitNamePlain(s: string)
    requires ':' !in s
    ensures SplitName(s) == (None, s)
  {
    if |s| >= 2 {
      SplitNamePlain(s[1..]);
    }
  }

  lemma {:induction false} SplitNameCons(name: string, rest: string)
    requires ':' !in name
    ensures SplitName(name + ": " + rest) == (Some(name), rest)
  {
    if name == [] {
      assert name + ": " + rest == ": " + rest;
      assert (": " + rest)[2..] == rest;
    } else {
      assert (name + ": " + rest)[1..] == name[1..] + ": " + rest;
      SplitNameCons(name[1..], rest);
      assert [name[0]] + name[1..] == name;
    }
  }

  lemma {:induction false} JoinDimsNoColon(dims: seq<string>)
    requires forall d :: d in dims ==> ':' !in d
    ensures ':' !in JoinDims(dims)
  {
    if |dims| > 1 {
      JoinDimsNoColon(dims[1..]);
    }
  }

  /** The label is well formed: it gives back the metric name and the
      dimension list, in order, when neither uses the separators. */
  lemma LabelRoundTrip<R>(dims: seq<Column>, m: Metric<R>)
    requires dims != [] && forall d :: d in dims ==> ',' !in d && ':' !in d
    requires m.name.Some? ==> ':' !in m.name.value
    ensures ParseLabel(MetricLabel(dims, m)) == (m.name, dims)
  {
    SplitDimsJoin(dims);
    match m.name
    case None =>
      JoinDimsNoColon(dims);
      SplitNamePlain(JoinDims(dims));
    case Some(name) =>
      SplitNameCons(name, JoinDims(dims));
  }

  // ---------------------------------------------------------------- grouping

  /** The dimensions of a group, read from its first row. */
  function Parameters(group: seq<Row>, dims: seq<Column>): map<Column, Value>
    requires group != [] && HasDims(group[0], dims)
  {
    map d | d in dims :: group[0][d]
  }

  /** The key tuple spelled by a parameter map. */
  function ParamsKey(p: map<Column, Value>, dims: seq<Column>): KeyTuple
    requires forall d :: d in dims ==> d in p
  {
    seq(|dims|, j requires 0 <= j < |dims| => p[dims[j]])
  }

  /** The first dimension the table lacks. */
  function FirstUnknown(dims: seq<Column>, columns: set<Column>): (r: Option<Column>)
    ensures r.None? <==> forall d :: d in dims ==> d in columns
    ensures r.Some? ==> r.value in dims && r.value !in columns
    ensures r.Some? ==> exists i :: 0 <= i < |dims| && dims[i] == r.value && forall j :: 0 <= j < i ==> dims[j] in columns
  {
    if dims == [] then None
    else if dims[0] !in columns then Some(dims[0])
    else FirstUnknown(dims[1..], columns)
  }

  /** The result row of the group with key `k`. */
  function ResultFor<R>(rows: seq<Row>, dims: seq<Column>, m: Metric<R>, k: KeyTuple): MetricRow<R>
    requires AllHaveDims(rows, dims) && Present(rows, dims, k)
  {
    GroupNonEmpty(rows, dims, k);
    var g := Group(rows, dims, k);
    assert g[0] in g;
    MetricRow(m.apply(g), Parameters(g, dims), MetricLabel(dims, m))
  }

  /** `compute_metric(data, dims, metric)`: one result row per group. */
  function ComputeMetric<R>(t: Table, dims: seq<Column>, m: Metric<R>): (res: Result<seq<MetricRow<R>>, Error>)
    requires WellFormed(t)
    ensures res == Failure(NoGroupKeys) <==> dims == []
    ensures res.Success? <==> dims != [] && forall d :: d in dims ==> d in t.columns
    ensures res.Failure? && dims != [] ==>
      res.error.UnknownDimension? && res.error.name in dims && res.error.name !in t.columns
  {
    if dims == [] then Failure(NoGroupKeys)
    else match FirstUnknown(dims, t.columns)
      case Some(d) => Failure(UnknownDimension(d))
      case None =>
        var ks := KeysOf(t.rows, dims);
        Success(seq(|ks|, i requires 0 <= i < |ks| => ResultFor(t.rows, dims, m, ks[i])))
  }

  /** The dimensions can be grouped on. */
  predicate ValidCut(t: Table, dims: seq<Column>) {
    dims != [] && forall d :: d in dims ==> d in t.columns
  }

  /** Each result row describes one group: its parameters are exactly the
      dimensions, none null, every row of the group holds them, the group is
      not empty, the metric value is the metric of exactly that group, and
      the label is the same on every row. */
  lemma ComputeMetricRows<R>(t: Table, dims: seq<Column>, m: Metric<R>)
    requires WellFormed(t) && ValidCut(t, dims)
    ensures AllHaveDims(t.rows, dims)
    ensures forall i :: 0 <= i < |ComputeMetric(t, dims, m).value| ==>
      var x := ComputeMetric(t, dims, m).value[i];
      && x.parameters.Keys == Elems(dims)
      && NullFree(ParamsKey(x.parameters, dims))
      && Present(t.rows, dims, ParamsKey(x.parameters, dims))
      && x.metricValue == m.apply(Group(t.rows, dims, ParamsKey(x.parameters, dims)))
      && x.metricLabel == MetricLabel(dims, m)
  {
    var rs := ComputeMetric(t, dims, m).value;
    var ks := KeysOf(t.rows, dims);
    forall i | 0 <= i < |rs|
      ensures rs[i].parameters.Keys == Elems(dims)
      ensures ParamsKey(rs[i].parameters, dims) == ks[i]
    {
      KeyOfResult(t.rows, dims, m, ks[i]);
    }
  }

  lemma KeyOfResult<R>(rows: seq<Row>, dims: seq<Column>, m: Metric<R>, k: KeyTuple)
    requires AllHaveDims(rows, dims) && Present(rows, dims, k)
    ensures ResultFor(rows, dims, m, k).parameters.Keys == Elems(dims)
    ensures ParamsKey(ResultFor(rows, dims, m, k).parameters, dims) == k
  {
    GroupNonEmpty(rows, dims, k);
    var g := Group(rows, dims, k);
    assert g[0] in g;
    assert Key(g[0], dims) == k;
  }

  /** Every row of a result's group holds the result's parameters. */
  lemma ParametersAgreeWithGroup<R>(t: Table, dims: seq<Column>, m: Metric<R>, i: nat)
    requires WellFormed(t) && ValidCut(t, dims)
    requires i < |ComputeMetric(t, dims, m).value|
    ensures AllHaveDims(t.rows, dims)
    ensures var x := ComputeMetric(t, dims, m).value[i];
      x.parameters.Keys == Elems(dims) &&
      Group(t.rows, dims, ParamsKey(x.parameters, dims)) != [] &&
      forall r, j :: r in Group(t.rows, dims, ParamsKey(x.parameters, dims)) && 0 <= j < |dims| ==>
        r[dims[j]] == x.parameters[dims[j]]
  {
    ComputeMetricRows(t, dims, m);
    var x := ComputeMetric(t, dims, m).value[i];
    var k := ParamsKey(x.parameters, dims);
    GroupNonEmpty(t.rows, dims, k);
    forall r, j | r in Group(t.rows, dims, k) && 0 <= j < |dims|
      ensures r[dims[j]] == x.parameters[dims[j]]
    {
      assert Key(r, dims) == k;
      assert Key(r, dims)[j] == r[dims[j]];
    }
  }

  /** Grouping is exhaustive and disjoint: every row whose key has no null
      is described by a result, and no two results share parameters. */
  lemma ComputeMetricPartition<R>(t: Table, dims: seq<Column>, m: Metric<R>)
    requires WellFormed(t) && ValidCut(t, dims)
    ensures AllHaveDims(t.rows, dims)
    ensures forall r :: r in t.rows && NullFree(Key(r, dims)) ==>
      exists i :: 0 <= i < |ComputeMetric(t, dims, m).value| &&
        ParamsKey(ComputeMetric(t, dims, m).value[i].parameters, dims) == Key(r, dims)
    ensures forall i, j :: 0 <= i < j < |ComputeMetric(t, dims, m).value| ==>
      ComputeMetric(t, dims, m).value[i].parameters != ComputeMetric(t, dims, m).value[j].parameters
  {
    var rs := ComputeMetric(t, dims, m).value;
    var ks := KeysOf(t.rows, dims);
    assert |rs| == |ks|;
    forall i | 0 <= i < |rs| ensures ParamsKey(rs[i].parameters, dims) == ks[i] {
      KeyOfResult(t.rows, dims, m, ks[i]);
    }
    forall r | r in t.rows && NullFree(Key(r, dims))
      ensures exists i :: 0 <= i < |rs| && ParamsKey(rs[i].parameters, dims) == Key(r, dims)
    {
      var i :| 0 <= i < |ks| && ks[i] == Key(r, dims);
      assert ParamsKey(rs[i].parameters, dims) == Key(r, dims);
    }
    forall i, j | 0 <= i < j < |rs| ensures rs[i].parameters != rs[j].parameters {
      KeyOfResult(t.rows, dims, m, ks[i]);
      KeyOfResult(t.rows, dims, m, ks[j]);
    }
  }

  // ---------------------------------------------------------------- composite keys

  /** The composite primary key of a result row. */
  function CompositeKey<R>(x: MetricRow<R>): (string, map<Column, Value>)
  {
    (x.metricLabel, x.parameters)
  }

  predicate UniqueKeys<R(==)>(rs: seq<MetricRow<R>>)
  {
    forall i, j :: 0 <= i < j < |rs| ==> CompositeKey(rs[i]) != CompositeKey(rs[j])
  }

  /** `pd.concat(results)`: the blocks one after another. */
  function Flatten<T>(blocks: seq<seq<T>>): seq<T>
  {
    if blocks == [] then [] else Flatten(blocks[..|blocks| - 1]) + blocks[|blocks| - 1]
  }

  lemma UniqueKeysAppend<R>(xs: seq<MetricRow<R>>, ys: seq<MetricRow<R>>)
    requires UniqueKeys(xs) && UniqueKeys(ys)
    requires forall x, y :: x in xs && y in ys ==> x.parameters != y.parameters
    ensures UniqueKeys(xs + ys)
  {
    var zs := xs + ys;
    forall i, j | 0 <= i < j < |zs| ensures CompositeKey(zs[i]) != CompositeKey(zs[j]) {
      if i < |xs| && j >= |xs| {
        assert zs[i] == xs[i] && zs[j] == ys[j - |xs|];
        assert xs[i] in xs && ys[j - |xs|] in ys;
      } else if j < |xs| {
        assert zs[i] == xs[i] && zs[j] == xs[j];
      } else {
        assert zs[i] == ys[i - |xs|] && zs[j] == ys[j - |xs|];
      }
    }
  }

  /** Blocks whose rows have pairwise distinct keys and whose parameter maps
      are keyed by pairwise distinct dimension sets concatenate to rows with
      pairwise distinct composite keys. */
  lemma {:induction false} BlocksUnique<R>(blocks: seq<seq<MetricRow<R>>>, cuts: seq<seq<Column>>)
    requires |blocks| <= |cuts|
    requires forall a, b :: 0 <= a < |cuts| && 0 <= b < |cuts| && Elems(cuts[a]) == Elems(cuts[b]) ==> a == b
    requires forall a :: 0 <= a < |blocks| ==> UniqueKeys(blocks[a])
    requires forall a, x :: 0 <= a < |blocks| && x in blocks[a] ==> x.parameters.Keys == Elems(cuts[a])
    ensures UniqueKeys(Flatten(blocks))
    ensures forall x :: x in Flatten(blocks) ==>
      exists a :: 0 <= a < |blocks| && x.parameters.Keys == Elems(cuts[a])
  {
    if blocks != [] {
      var n := |blocks| - 1;
      var init := blocks[..n];
      BlocksUnique(init, cuts);
      assert forall a :: 0 <= a < n ==> init[a] == blocks[a];
      forall x, y | x in Flatten(init) && y in blocks[n] ensures x.parameters != y.parameters {
        var a :| 0 <= a < n && x.parameters.Keys == Elems(cuts[a]);
      }
      UniqueKeysAppend(Flatten(init), blocks[n]);
      forall x | x in Flatten(blocks)
        ensures exists a :: 0 <= a < |blocks| && x.parameters.Keys == Elems(cuts[a])
      {
        assert Flatten(blocks) == Flatten(init) + blocks[n];
        if x in Flatten(init) {
          var a :| 0 <= a < n && x.parameters.Keys == Elems(cuts[a]);
          assert a < |blocks|;
        } else {
          assert x in blocks[n];
          assert x.parameters.Keys == Elems(cuts[n]);
        }
      }
    }
  }
}
