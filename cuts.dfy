/** Every cut of a table: the metric over every non-empty subset of the
    dimensions, concatenated, with a composite key that is unique across
    the whole result set. */
module Cuts {
  import opened Collections
  import opened Tables
  import opened Subsets
  import opened Engine

  /** One engine result is a block of rows with pairwise distinct composite
      keys, each keyed by exactly the block's dimensions. */
  lemma BlockFacts<R>(t: Table, dims: seq<Column>, m: Metric<R>)
    requires WellFormed(t) && ValidCut(t, dims)
    ensures UniqueKeys(ComputeMetric(t, dims, m).value)
    ensures forall x :: x in ComputeMetric(t, dims, m).value ==> x.parameters.Keys == Elems(dims)
  {
    ComputeMetricRows(t, dims, m);
    ComputeMetricPartition(t, dims, m);
  }

  /** A subset yielded by the generator is a cut of a table that has every
      dimension. */
  lemma SubsetsAreCuts(t: Table, dims: seq<Column>)
    requires forall d :: d in dims ==> d in t.columns
    ensures forall i :: 0 <= i < |AllSubsets(dims)| ==> ValidCut(t, AllSubsets(dims)[i])
  {
    AllSubsetsShape(dims);
    forall i | 0 <= i < |AllSubsets(dims)| ensures ValidCut(t, AllSubsets(dims)[i]) {
      var c := AllSubsets(dims)[i];
      assert c in AllSubsets(dims);
      SubseqElems(c, dims);
      assert forall d :: d in c ==> d in Elems(c);
    }
  }

  /** The single-dimension subset `[d]` is yielded for each dimension `d`. */
  lemma SingletonYielded<T>(dims: seq<T>, d: T)
    requires d in dims
    ensures [d] in AllSubsets(dims)
  {
    var k :| 0 <= k < |dims| && dims[k] == d;
    SingletonSubseq(dims, k);
    CombinationsComplete([d], dims);
    BySizeContains(dims, |dims|, [d]);
  }

  lemma {:induction false} SingletonSubseq<T>(s: seq<T>, k: nat)
    requires k < |s|
    ensures IsSubseq([s[k]], s)
  {
    if k > 0 {
      SingletonSubseq(s[1..], k - 1);
    } else {
      assert [s[0]][1..] == [];
    }
  }

  /** Every cut names columns of the table. */
  predicate ValidCuts(t: Table, cuts: seq<seq<Column>>) {
    forall i :: 0 <= i < |cuts| ==> ValidCut(t, cuts[i])
  }

  lemma ValidCutsPrefix(t: Table, cuts: seq<seq<Column>>, n: nat)
    requires ValidCuts(t, cuts) && n <= |cuts|
    ensures ValidCuts(t, cuts[..n])
  {
    assert forall i :: 0 <= i < n ==> cuts[..n][i] == cuts[i];
  }

  /** The engine results of the cuts `cuts`, one block per cut. */
  function CutBlocks<R>(t: Table, cuts: seq<seq<Column>>, m: Metric<R>): (bs: seq<seq<MetricRow<R>>>)
    requires WellFormed(t) && ValidCuts(t, cuts)
    ensures |bs| == |cuts|
  {
    if cuts == [] then []
    else
      var n := |cuts| - 1;
      ValidCutsPrefix(t, cuts, n);
      CutBlocks(t, cuts[..n], m) + [ComputeMetric(t, cuts[n], m).value]
  }

  /** One more cut appends its block and leaves the earlier ones as they are. */
  lemma CutBlocksSnoc<R>(t: Table, cuts: seq<seq<Column>>, i: nat, m: Metric<R>)
    requires WellFormed(t) && i < |cuts| && forall a :: 0 <= a <= i ==> ValidCut(t, cuts[a])
    ensures ValidCuts(t, cuts[..i]) && ValidCuts(t, cuts[..i + 1])
    ensures CutBlocks(t, cuts[..i + 1], m) == CutBlocks(t, cuts[..i], m) + [ComputeMetric(t, cuts[i], m).value]
  {
    assert forall a :: 0 <= a < i + 1 ==> cuts[..i + 1][a] == cuts[a];
    assert cuts[..i + 1][..i] == cuts[..i];
  }

  /** Block `a` has unique keys and exactly cut `a` as its parameters. */
  predicate BlocksMatchCuts<R(==)>(blocks: seq<seq<MetricRow<R>>>, cuts: seq<seq<Column>>) {
    && |blocks| == |cuts|
    && (forall a :: 0 <= a < |blocks| ==> UniqueKeys(blocks[a]))
    && (forall a, x :: 0 <= a < |blocks| && x in blocks[a] ==> x.parameters.Keys == Elems(cuts[a]))
  }

  lemma BlocksMatchAppend<R>(blocks: seq<seq<MetricRow<R>>>, cuts: seq<seq<Column>>, b: seq<MetricRow<R>>)
    requires cuts != [] && BlocksMatchCuts(blocks, cuts[..|cuts| - 1])
    requires UniqueKeys(b) && forall x :: x in b ==> x.parameters.Keys == Elems(cuts[|cuts| - 1])
    ensures BlocksMatchCuts(blocks + [b], cuts)
  {
    var bs := blocks + [b];
    forall a | 0 <= a < |bs|
      ensures UniqueKeys(bs[a])
      ensures forall x: MetricRow<R> :: x in bs[a] ==> x.parameters.Keys == Elems(cuts[a])
    {
      if a < |blocks| {
        assert bs[a] == blocks[a] && cuts[..|cuts| - 1][a] == cuts[a];
      }
    }
  }

  /** Every cut's block has unique keys and exactly that cut as parameters. */
  lemma {:induction false} CutBlocksFacts<R>(t: Table, cuts: seq<seq<Column>>, m: Metric<R>)
    requires WellFormed(t) && ValidCuts(t, cuts)
    ensures BlocksMatchCuts(CutBlocks(t, cuts, m), cuts)
  {
    if cuts != [] {
      var n := |cuts| - 1;
      ValidCutsPrefix(t, cuts, n);
      CutBlocksFacts(t, cuts[..n], m);
      BlockFacts(t, cuts[n], m);
      BlocksMatchAppend(CutBlocks(t, cuts[..n], m), cuts, ComputeMetric(t, cuts[n], m).value);
    }
  }

  /** The primary key of test_problem_1: for distinct dimensions, the
      (label, parameters) pairs of all cuts, concatenated, are pairwise
      distinct. */
  lemma CompositeKeyUnique<R>(t: Table, dims: seq<Column>, m: Metric<R>)
    requires WellFormed(t) && Distinct(dims) && forall d :: d in dims ==> d in t.columns
    ensures ValidCuts(t, AllSubsets(dims))
    ensures UniqueKeys(Flatten(CutBlocks(t, AllSubsets(dims), m)))
  {
    var cuts := AllSubsets(dims);
    SubsetsAreCuts(t, dims);
    EachSubsetOnce(dims);
    CutBlocksFacts(t, cuts, m);
    BlocksUnique(CutBlocks(t, cuts, m), cuts);
  }

  /** test_problem_1: compute the metric for every cut, collect the blocks,
      and concatenate them. */
  method ComputeAllCuts<R>(t: Table, dims: seq<Column>, m: Metric<R>) returns (res: Result<seq<MetricRow<R>>, Error>)
    requires WellFormed(t)
    ensures dims == [] ==> res == Failure(NothingToConcatenate)
    ensures dims != [] ==> (res.Success? <==> forall d :: d in dims ==> d in t.columns)
    ensures res.Failure? && dims != [] ==>
      res.error.UnknownDimension? && res.error.name in dims && res.error.name !in t.columns
    ensures res.Success? ==>
      ValidCuts(t, AllSubsets(dims)) &&
      res.value == Flatten(CutBlocks(t, AllSubsets(dims), m))
    ensures res.Success? && Distinct(dims) ==> UniqueKeys(res.value)
  {
    var subsets := DimensionSubsets(dims);
    AllSubsetsShape(dims);
    var results: seq<seq<MetricRow<R>>> := [];
    for i := 0 to |subsets|
      invariant |results| == i
      invariant forall a :: 0 <= a < i ==> ValidCut(t, subsets[a])
      invariant results == CutBlocks(t, subsets[..i], m)
    {
      var r := ComputeMetric(t, subsets[i], m);
      if r.Failure? {
        assert subsets[i] in subsets;
        SubseqElems(subsets[i], dims);
        assert r.error.name in Elems(dims);
        return Failure(r.error);
      }
      CutBlocksSnoc(t, subsets, i, m);
      results := results + [r.value];
    }
    assert subsets[..|subsets|] == subsets;
    if results == [] {
      AllSubsetsCount(dims);
      return Failure(NothingToConcatenate);
    }
    forall d | d in dims ensures d in t.columns {
      SingletonYielded(dims, d);
      var a :| 0 <= a < |subsets| && subsets[a] == [d];
      assert d in subsets[a];
    }
    res := Success(Flatten(results));
    if Distinct(dims) {
      CompositeKeyUnique(t, dims, m);
    }
  }
}
