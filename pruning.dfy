/** Support-threshold pruning: before each cut is computed, the groups of
    that cut with fewer rows than the threshold are dropped from the table,
    and the narrowed table is carried on to the next cut. */
module Pruning {
  import opened Collections
  import opened Tables
  import opened Subsets
  import opened Engine
  import opened Cuts
  import opened Checker

  /** The group size of key `k`: the number of rows with that key. */
  function Count(rows: seq<Row>, dims: seq<Column>, k: KeyTuple): nat
    requires AllHaveDims(rows, dims)
  {
    |Group(rows, dims, k)|
  }

  /** The keys of `ks` whose count is below the threshold (`below`), or at
      least the threshold (`!below`), in the order of `ks`. */
  function SelectKeys(ks: seq<KeyTuple>, rows: seq<Row>, dims: seq<Column>, threshold: int, below: bool): (r: seq<KeyTuple>)
    requires AllHaveDims(rows, dims)
    ensures forall k :: k in r <==> k in ks && (Count(rows, dims, k) < threshold) == below
  {
    if ks == [] then []
    else
      var rest := SelectKeys(ks[1..], rows, dims, threshold, below);
      if (Count(rows, dims, ks[0]) < threshold) == below then [ks[0]] + rest else rest
  }

  /** `filtered_out` and the kept `counts` of one cut. */
  datatype Decision = Decision(pruned: seq<KeyTuple>, kept: seq<KeyTuple>)

  /** Splits the keys present in `rows` by their count: pruned below the
      threshold, kept at or above it. The two are disjoint and together
      are the keys present. */
  function Decide(rows: seq<Row>, dims: seq<Column>, threshold: int): (d: Decision)
    requires AllHaveDims(rows, dims)
    ensures forall k :: k in d.pruned ==> Present(rows, dims, k) && NullFree(k) && Count(rows, dims, k) < threshold
    ensures forall k :: k in d.kept ==> Present(rows, dims, k) && NullFree(k) && Count(rows, dims, k) >= threshold
    ensures Elems(d.pruned) !! Elems(d.kept)
    ensures Elems(d.pruned) + Elems(d.kept) == Elems(KeysOf(rows, dims))
  {
    var ks := KeysOf(rows, dims);
    Decision(SelectKeys(ks, rows, dims, threshold, true), SelectKeys(ks, rows, dims, threshold, false))
  }

  /** The inner join of the table with the kept counts. */
  function Narrow(rows: seq<Row>, dims: seq<Column>, threshold: int): (out: seq<Row>)
    requires AllHaveDims(rows, dims)
    ensures multiset(out) <= multiset(rows)
    ensures forall r :: r in out ==> r in rows
  {
    SemiJoin(rows, dims, Elems(Decide(rows, dims, threshold).kept))
  }

  /** The narrowed table holds exactly the rows of a kept group (key
      without nulls, count at least the threshold), as often as the input
      does; no row is invented. */
  lemma NarrowKeepsExactly(rows: seq<Row>, dims: seq<Column>, threshold: int)
    requires AllHaveDims(rows, dims)
    ensures forall r :: r in rows ==>
      multiset(Narrow(rows, dims, threshold))[r] ==
        if NullFree(Key(r, dims)) && Count(rows, dims, Key(r, dims)) >= threshold then multiset(rows)[r] else 0
  {
    assert forall r :: r in rows && NullFree(Key(r, dims)) ==> Key(r, dims) in KeysOf(rows, dims);
  }

  /** Every cut can be grouped on in `rows`. */
  predicate CutsHaveDims(rows: seq<Row>, cuts: seq<seq<Column>>) {
    forall i :: 0 <= i < |cuts| ==> AllHaveDims(rows, cuts[i])
  }

  lemma CutsPrefix(rows: seq<Row>, cuts: seq<seq<Column>>, n: nat)
    requires CutsHaveDims(rows, cuts) && n <= |cuts|
    ensures CutsHaveDims(rows, cuts[..n])
  {
    forall i | 0 <= i < n ensures AllHaveDims(rows, cuts[..n][i]) {
      assert cuts[..n][i] == cuts[i];
    }
  }

  /** The table after pruning by the cuts in turn, each on the table the
      previous one left. */
  function NarrowAll(rows: seq<Row>, cuts: seq<seq<Column>>, threshold: int): (out: seq<Row>)
    requires CutsHaveDims(rows, cuts)
    ensures multiset(out) <= multiset(rows)
    ensures forall r :: r in out ==> r in rows
  {
    if cuts == [] then rows
    else
      var n := |cuts| - 1;
      CutsPrefix(rows, cuts, n);
      var prev := NarrowAll(rows, cuts[..n], threshold);
      Narrow(prev, cuts[n], threshold)
  }

  /** Across the iterations the table only shrinks: the last cut narrows
      the table the cuts before it left to a sub-multiset of it. */
  lemma NarrowAllLast(rows: seq<Row>, cuts: seq<seq<Column>>, threshold: int)
    requires CutsHaveDims(rows, cuts) && cuts != []
    ensures CutsHaveDims(rows, cuts[..|cuts| - 1])
    ensures multiset(NarrowAll(rows, cuts, threshold)) <= multiset(NarrowAll(rows, cuts[..|cuts| - 1], threshold))
  {
    CutsPrefix(rows, cuts, |cuts| - 1);
  }

  /** The entries the loop records, one per cut, in order. */
  function PruneLog(rows: seq<Row>, cuts: seq<seq<Column>>, threshold: int): (log: seq<Entry>)
    requires CutsHaveDims(rows, cuts)
    ensures |log| == |cuts|
  {
    if cuts == [] then []
    else
      var n := |cuts| - 1;
      CutsPrefix(rows, cuts, n);
      var prev := NarrowAll(rows, cuts[..n], threshold);
      PruneLog(rows, cuts[..n], threshold) + [Entry(cuts[n], Decide(prev, cuts[n], threshold).pruned)]
  }

  lemma {:induction false} PruneLogDims(rows: seq<Row>, cuts: seq<seq<Column>>, threshold: int)
    requires CutsHaveDims(rows, cuts)
    ensures forall a :: 0 <= a < |cuts| ==> PruneLog(rows, cuts, threshold)[a].dims == cuts[a]
  {
    if cuts != [] {
      var n := |cuts| - 1;
      CutsPrefix(rows, cuts, n);
      PruneLogDims(rows, cuts[..n], threshold);
      var log := PruneLog(rows, cuts, threshold);
      var prevLog := PruneLog(rows, cuts[..n], threshold);
      assert log[..n] == prevLog;
      forall a | 0 <= a < |cuts| ensures log[a].dims == cuts[a] {
        if a < n {
          assert log[a] == prevLog[a];
          assert cuts[..n][a] == cuts[a];
        }
      }
    }
  }

  /** One iteration: no row of the narrowed table matches a key pruned
      in that iteration. */
  lemma NoLeakStep(prev: seq<Row>, dims: seq<Column>, threshold: int)
    requires AllHaveDims(prev, dims)
    ensures var d := Decide(prev, dims, threshold);
      LogHasDims(Narrow(prev, dims, threshold), [Entry(dims, d.pruned)]) &&
      NoLeak(Narrow(prev, dims, threshold), [Entry(dims, d.pruned)])
  {
    var d := Decide(prev, dims, threshold);
    var cur := Narrow(prev, dims, threshold);
    var log := [Entry(dims, d.pruned)];
    forall a, j, r | 0 <= a < |log| && 0 <= j < |log[a].combos| && r in cur
      ensures !Matches(r, log[a].dims, log[a].combos[j])
    {
      var k := d.pruned[j];
      assert k in d.pruned;
      var w :| w in prev && Key(w, dims) == k;
      assert Key(r, dims) in Elems(d.kept) && k in Elems(d.pruned);
      OtherKeyNoMatch(r, dims, k);
    }
  }

  /** After any number of iterations, no row of the current table matches a
      key pruned at that iteration or any earlier one. */
  lemma {:induction false} NoLeakAfterAll(rows: seq<Row>, cuts: seq<seq<Column>>, threshold: int)
    requires CutsHaveDims(rows, cuts)
    ensures LogHasDims(NarrowAll(rows, cuts, threshold), PruneLog(rows, cuts, threshold))
    ensures NoLeak(NarrowAll(rows, cuts, threshold), PruneLog(rows, cuts, threshold))
  {
    if cuts != [] {
      var n := |cuts| - 1;
      CutsPrefix(rows, cuts, n);
      NoLeakAfterAll(rows, cuts[..n], threshold);
      var prev := NarrowAll(rows, cuts[..n], threshold);
      var cur := Narrow(prev, cuts[n], threshold);
      var e := Entry(cuts[n], Decide(prev, cuts[n], threshold).pruned);
      NoLeakSub(cur, prev, PruneLog(rows, cuts[..n], threshold));
      NoLeakStep(prev, cuts[n], threshold);
      NoLeakAppend(cur, PruneLog(rows, cuts[..n], threshold), e);
    }
  }

  // ---------------------------------------------------------------- thresholds

  lemma MultisetCardMono<T>(a: multiset<T>, b: multiset<T>)
    requires a <= b
    ensures |a| <= |b|
  {
    assert b == a + (b - a);
  }

  lemma GroupMonotone(xs: seq<Row>, ys: seq<Row>, dims: seq<Column>, k: KeyTuple)
    requires AllHaveDims(xs, dims) && AllHaveDims(ys, dims) && multiset(xs) <= multiset(ys)
    ensures multiset(Group(xs, dims, k)) <= multiset(Group(ys, dims, k))
    ensures Count(xs, dims, k) <= Count(ys, dims, k)
  {
    var gx, gy := Group(xs, dims, k), Group(ys, dims, k);
    forall r ensures multiset(gx)[r] <= multiset(gy)[r] {
      if r in xs {
        assert multiset(xs)[r] > 0;
        assert r in ys;
      } else {
        assert multiset(gx)[r] <= multiset(xs)[r];
      }
    }
    MultisetCardMono(multiset(gx), multiset(gy));
  }

  /** A smaller table pruned at a higher threshold keeps a sub-multiset of
      what a larger table keeps at a lower one. */
  lemma NarrowMonotone(xs: seq<Row>, ys: seq<Row>, dims: seq<Column>, hi: int, lo: int)
    requires AllHaveDims(xs, dims) && AllHaveDims(ys, dims) && multiset(xs) <= multiset(ys) && lo <= hi
    ensures multiset(Narrow(xs, dims, hi)) <= multiset(Narrow(ys, dims, lo))
  {
    var nx, ny := Narrow(xs, dims, hi), Narrow(ys, dims, lo);
    NarrowKeepsExactly(xs, dims, hi);
    NarrowKeepsExactly(ys, dims, lo);
    forall r ensures multiset(nx)[r] <= multiset(ny)[r] {
      if r in xs {
        assert multiset(xs)[r] > 0;
        assert r in ys;
        GroupMonotone(xs, ys, dims, Key(r, dims));
      } else {
        assert multiset(nx)[r] <= multiset(xs)[r];
      }
    }
  }

  /** Raising the threshold keeps fewer rows: what survives the whole loop
      at threshold `hi` survives it at any `lo <= hi`. */
  lemma {:induction false} ThresholdMonotone(rows: seq<Row>, cuts: seq<seq<Column>>, hi: int, lo: int)
    requires CutsHaveDims(rows, cuts) && lo <= hi
    ensures multiset(NarrowAll(rows, cuts, hi)) <= multiset(NarrowAll(rows, cuts, lo))
  {
    if cuts != [] {
      var n := |cuts| - 1;
      CutsPrefix(rows, cuts, n);
      ThresholdMonotone(rows, cuts[..n], hi, lo);
      NarrowMonotone(NarrowAll(rows, cuts[..n], hi), NarrowAll(rows, cuts[..n], lo), cuts[n], hi, lo);
    }
  }

  /** At a threshold of at most 1 no key is pruned. */
  lemma LowThresholdPrunesNothing(rows: seq<Row>, dims: seq<Column>, threshold: int)
    requires AllHaveDims(rows, dims) && threshold <= 1
    ensures Decide(rows, dims, threshold).pruned == []
  {
    var d := Decide(rows, dims, threshold);
    if d.pruned != [] {
      assert d.pruned[0] in d.pruned;
      GroupNonEmpty(rows, dims, d.pruned[0]);
    }
  }

  lemma {:induction false} SemiJoinKeepsAll(rows: seq<Row>, dims: seq<Column>, keys: set<KeyTuple>)
    requires AllHaveDims(rows, dims) && forall r :: r in rows ==> Key(r, dims) in keys
    ensures SemiJoin(rows, dims, keys) == rows
    decreases |rows|
  {
    if rows != [] {
      SemiJoinKeepsAll(rows[1..], dims, keys);
      assert [rows[0]] + rows[1..] == rows;
    }
  }

  /** Rows whose every cut has a null-free key all survive threshold 1. */
  predicate NullFreeUnder(rows: seq<Row>, cuts: seq<seq<Column>>)
    requires CutsHaveDims(rows, cuts)
  {
    forall i, r :: 0 <= i < |cuts| && r in rows ==> NullFree(Key(r, cuts[i]))
  }

  lemma {:induction false} ThresholdOneKeepsAll(rows: seq<Row>, cuts: seq<seq<Column>>, threshold: int)
    requires CutsHaveDims(rows, cuts) && NullFreeUnder(rows, cuts) && threshold <= 1
    ensures NarrowAll(rows, cuts, threshold) == rows
  {
    if cuts != [] {
      var n := |cuts| - 1;
      CutsPrefix(rows, cuts, n);
      assert forall i, r :: 0 <= i < n && r in rows ==> cuts[..n][i] == cuts[i];
      ThresholdOneKeepsAll(rows, cuts[..n], threshold);
      var d := Decide(rows, cuts[n], threshold);
      forall r | r in rows ensures Key(r, cuts[n]) in Elems(d.kept) {
        assert Key(r, cuts[n]) in KeysOf(rows, cuts[n]);
        LowThresholdPrunesNothing(rows, cuts[n], threshold);
      }
      SemiJoinKeepsAll(rows, cuts[n], Elems(d.kept));
    }
  }

  // ---------------------------------------------------------------- metric blocks

  /** Every cut is a non-empty list of the table's columns. */
  lemma ValidCutsHaveDims(t: Table, cuts: seq<seq<Column>>)
    requires WellFormed(t) && ValidCuts(t, cuts)
    ensures CutsHaveDims(t.rows, cuts)
  {
  }

  /** The metric a cut reports: grouped on the last cut, over the table that
      all cuts so far, that one included, have left. */
  function PrunedBlock<R>(t: Table, cuts: seq<seq<Column>>, threshold: int, m: Metric<R>): seq<MetricRow<R>>
    requires WellFormed(t) && ValidCuts(t, cuts) && cuts != []
  {
    ValidCutsHaveDims(t, cuts);
    var rows := NarrowAll(t.rows, cuts, threshold);
    SubRowsWellFormed(t, rows);
    ComputeMetric(Table(t.columns, rows), cuts[|cuts| - 1], m).value
  }

  /** The blocks `results` collects, one per cut. */
  function PrunedBlocks<R>(t: Table, cuts: seq<seq<Column>>, threshold: int, m: Metric<R>): (bs: seq<seq<MetricRow<R>>>)
    requires WellFormed(t) && ValidCuts(t, cuts)
    ensures |bs| == |cuts|
  {
    if cuts == [] then []
    else
      var n := |cuts| - 1;
      ValidCutsPrefix(t, cuts, n);
      PrunedBlocks(t, cuts[..n], threshold, m) + [PrunedBlock(t, cuts, threshold, m)]
  }

  /** One more cut appends one block and leaves the earlier ones as they are. */
  lemma PrunedBlocksSnoc<R>(t: Table, prefix: seq<seq<Column>>, cut: seq<Column>, threshold: int, m: Metric<R>)
    requires WellFormed(t) && ValidCuts(t, prefix) && ValidCut(t, cut)
    ensures ValidCuts(t, prefix + [cut])
    ensures PrunedBlocks(t, prefix + [cut], threshold, m) ==
      PrunedBlocks(t, prefix, threshold, m) + [PrunedBlock(t, prefix + [cut], threshold, m)]
  {
    ValidCutsAppend(t, prefix, cut);
  }

  /** A block has one row per group of its own cut, no two with the same
      parameters, and its parameters are exactly that cut. */
  lemma PrunedBlockFacts<R>(t: Table, cuts: seq<seq<Column>>, threshold: int, m: Metric<R>)
    requires WellFormed(t) && ValidCuts(t, cuts) && cuts != []
    ensures UniqueKeys(PrunedBlock(t, cuts, threshold, m))
    ensures forall x :: x in PrunedBlock(t, cuts, threshold, m) ==>
      x.parameters.Keys == Elems(cuts[|cuts| - 1])
  {
    ValidCutsHaveDims(t, cuts);
    var rows := NarrowAll(t.rows, cuts, threshold);
    SubRowsWellFormed(t, rows);
    BlockFacts(Table(t.columns, rows), cuts[|cuts| - 1], m);
  }

  /** Every block has unique keys and exactly its own cut as parameters. */
  lemma {:induction false} PrunedBlocksFacts<R>(t: Table, cuts: seq<seq<Column>>, threshold: int, m: Metric<R>)
    requires WellFormed(t) && ValidCuts(t, cuts)
    ensures BlocksMatchCuts(PrunedBlocks(t, cuts, threshold, m), cuts)
  {
    if cuts != [] {
      var n := |cuts| - 1;
      ValidCutsPrefix(t, cuts, n);
      PrunedBlocksFacts(t, cuts[..n], threshold, m);
      PrunedBlockFacts(t, cuts, threshold, m);
      BlocksMatchAppend(PrunedBlocks(t, cuts[..n], threshold, m), cuts, PrunedBlock(t, cuts, threshold, m));
    }
  }

  /** With the metric grouped on each cut, the concatenated results have a
      unique (label, parameters) key whenever the dimensions are distinct. */
  lemma PrunedCutsUnique<R>(t: Table, dims: seq<Column>, threshold: int, m: Metric<R>)
    requires WellFormed(t) && Distinct(dims) && forall d :: d in dims ==> d in t.columns
    ensures ValidCuts(t, AllSubsets(dims))
    ensures UniqueKeys(Flatten(PrunedBlocks(t, AllSubsets(dims), threshold, m)))
  {
    SubsetsAreCuts(t, dims);
    EachSubsetOnce(dims);
    PrunedBlocksFacts(t, AllSubsets(dims), threshold, m);
    BlocksUnique(PrunedBlocks(t, AllSubsets(dims), threshold, m), AllSubsets(dims));
  }

  // ---------------------------------------------------------------- as written

  /** The loop as written groups every block on all of `dims`, whatever the
      cut, over the table the cuts so far have left. */
  function AsWrittenBlock<R>(t: Table, dims: seq<Column>, cuts: seq<seq<Column>>, threshold: int, m: Metric<R>): seq<MetricRow<R>>
    requires WellFormed(t) && ValidCut(t, dims) && ValidCuts(t, cuts)
  {
    ValidCutsHaveDims(t, cuts);
    var rows := NarrowAll(t.rows, cuts, threshold);
    SubRowsWellFormed(t, rows);
    ComputeMetric(Table(t.columns, rows), dims, m).value
  }

  function AsWrittenBlocks<R>(t: Table, dims: seq<Column>, cuts: seq<seq<Column>>, threshold: int, m: Metric<R>): (bs: seq<seq<MetricRow<R>>>)
    requires WellFormed(t) && ValidCut(t, dims) && ValidCuts(t, cuts)
    ensures |bs| == |cuts|
  {
    seq(|cuts|, i requires 0 <= i < |cuts| => AsWrittenBlock(t, dims, cuts[..i + 1], threshold, m))
  }

  /** The blocks concatenated so far are a prefix of all of them. */
  lemma {:induction false} FlattenPrefix<T>(bs: seq<seq<T>>, k: nat)
    requires k <= |bs|
    ensures |Flatten(bs[..k])| <= |Flatten(bs)|
    ensures Flatten(bs)[..|Flatten(bs[..k])|] == Flatten(bs[..k])
  {
    if k < |bs| {
      var n := |bs| - 1;
      FlattenPrefix(bs[..n], k);
      assert bs[..n][..k] == bs[..k];
      assert Flatten(bs) == Flatten(bs[..n]) + bs[n];
    } else {
      assert bs[..k] == bs;
    }
  }

  lemma Pow2AtLeast(n: nat)
    ensures Pow2(n) >= n + 1
  {
  }

  /** Cuts drawn from `dims`, over rows with no null in `dims`, have
      null-free keys. */
  lemma NoNullKeys(t: Table, dims: seq<Column>, cuts: seq<seq<Column>>)
    requires WellFormed(t) && forall d :: d in dims ==> d in t.columns
    requires forall r, d :: r in t.rows && d in dims ==> r[d] != Null
    requires forall i, d :: 0 <= i < |cuts| && d in cuts[i] ==> d in dims
    ensures CutsHaveDims(t.rows, cuts) && NullFreeUnder(t.rows, cuts)
  {
    forall i, r | 0 <= i < |cuts| && r in t.rows ensures NullFree(Key(r, cuts[i])) {
      forall j | 0 <= j < |cuts[i]| ensures Key(r, cuts[i])[j] != Null {
        assert cuts[i][j] in cuts[i];
      }
    }
  }

  /** A table with a row and no nulls in `dims` has a group on `dims`. */
  lemma FullCutNonEmpty<R>(t: Table, dims: seq<Column>, m: Metric<R>)
    requires WellFormed(t) && ValidCut(t, dims) && t.rows != []
    requires forall r, d :: r in t.rows && d in dims ==> r[d] != Null
    ensures |ComputeMetric(t, dims, m).value| > 0
  {
    var r := t.rows[0];
    assert r in t.rows;
    NoNullKeys(t, dims, [dims]);
    assert Key(r, dims) in KeysOf(t.rows, dims);
  }

  /** When nothing is pruned, the first two blocks as written are both the
      metric over all of `dims` on the whole table. */
  lemma AsWrittenFirstTwo<R>(t: Table, dims: seq<Column>, threshold: int, m: Metric<R>)
    requires WellFormed(t) && |dims| >= 2 && (forall d :: d in dims ==> d in t.columns)
    requires threshold <= 1
    requires forall r, d :: r in t.rows && d in dims ==> r[d] != Null
    ensures ValidCuts(t, AllSubsets(dims))
    ensures var bs := AsWrittenBlocks(t, dims, AllSubsets(dims), threshold, m);
      |bs| >= 2 && bs[0] == bs[1] == ComputeMetric(t, dims, m).value
  {
    var cuts := AllSubsets(dims);
    SubsetsAreCuts(t, dims);
    AllSubsetsCount(dims);
    Pow2AtLeast(|dims|);
    AllSubsetsShape(dims);
    forall i, d | 0 <= i < |cuts| && d in cuts[i] ensures d in dims {
      assert cuts[i] in cuts;
      SubseqElems(cuts[i], dims);
      assert d in Elems(cuts[i]);
    }
    var bs := AsWrittenBlocks(t, dims, cuts, threshold, m);
    forall a | 0 <= a < 2 ensures bs[a] == ComputeMetric(t, dims, m).value {
      var prefix := cuts[..a + 1];
      assert forall i :: 0 <= i < |prefix| ==> prefix[i] == cuts[i];
      NoNullKeys(t, dims, prefix);
      ThresholdOneKeepsAll(t.rows, prefix, threshold);
      assert Table(t.columns, t.rows) == t;
    }
  }

  /** Two equal non-empty leading blocks make the concatenation repeat a key. */
  lemma RepeatedBlockNotUnique<R>(bs: seq<seq<MetricRow<R>>>)
    requires |bs| >= 2 && bs[0] == bs[1] && |bs[0]| > 0
    ensures !UniqueKeys(Flatten(bs))
  {
    var b := bs[0];
    FlattenPrefix(bs, 2);
    assert bs[..2] == [b, b];
    assert Flatten(bs[..2]) == b + b by {
      assert bs[..2][..1] == [b];
      var one: seq<seq<MetricRow<R>>> := [b];
      assert one[..0] == [];
      assert Flatten(one) == b;
    }
    var f := Flatten(bs);
    assert f[0] == b[0] && f[|b|] == b[0];
  }

  /** With two or more dimensions, a threshold that prunes nothing and a
      table with a row and no nulls, the first two blocks as written are the
      same full-dimension groups with the same label, so the concatenated
      results repeat a (label, parameters) key. */
  lemma AsWrittenRepeatsKeys<R>(t: Table, dims: seq<Column>, threshold: int, m: Metric<R>)
    requires WellFormed(t) && |dims| >= 2 && (forall d :: d in dims ==> d in t.columns)
    requires threshold <= 1 && t.rows != []
    requires forall r, d :: r in t.rows && d in dims ==> r[d] != Null
    ensures ValidCuts(t, AllSubsets(dims))
    ensures !UniqueKeys(Flatten(AsWrittenBlocks(t, dims, AllSubsets(dims), threshold, m)))
  {
    AsWrittenFirstTwo(t, dims, threshold, m);
    FullCutNonEmpty(t, dims, m);
    RepeatedBlockNotUnique(AsWrittenBlocks(t, dims, AllSubsets(dims), threshold, m));
  }

  // ---------------------------------------------------------------- the loop

  /** Appending a valid cut keeps the cuts valid. */
  lemma ValidCutsAppend(t: Table, prefix: seq<seq<Column>>, cut: seq<Column>)
    requires WellFormed(t) && ValidCuts(t, prefix) && ValidCut(t, cut)
    ensures ValidCuts(t, prefix + [cut])
    ensures CutsHaveDims(t.rows, prefix) && CutsHaveDims(t.rows, prefix + [cut])
    ensures (prefix + [cut])[..|prefix|] == prefix
    ensures (prefix + [cut])[|prefix|] == cut
  {
    var cuts := prefix + [cut];
    assert forall a :: 0 <= a < |cuts| ==> cuts[a] == if a < |prefix| then prefix[a] else cut;
    assert cuts[..|prefix|] == prefix;
  }

  /** One more cut: the table it leaves is the previous one joined with its
      kept groups, and the log gains its pruned keys. */
  lemma PruneStep(t: Table, prefix: seq<seq<Column>>, cut: seq<Column>, threshold: int)
    requires WellFormed(t) && ValidCuts(t, prefix) && ValidCut(t, cut)
    ensures ValidCuts(t, prefix + [cut])
    ensures CutsHaveDims(t.rows, prefix) && CutsHaveDims(t.rows, prefix + [cut])
    ensures AllHaveDims(NarrowAll(t.rows, prefix, threshold), cut)
    ensures var prev := NarrowAll(t.rows, prefix, threshold);
      var d := Decide(prev, cut, threshold);
      && NarrowAll(t.rows, prefix + [cut], threshold) == SemiJoin(prev, cut, Elems(d.kept))
      && PruneLog(t.rows, prefix + [cut], threshold) == PruneLog(t.rows, prefix, threshold) + [Entry(cut, d.pruned)]
  {
    ValidCutsAppend(t, prefix, cut);
  }

  /** The block of the last cut is its metric on the table all cuts left. */
  lemma PrunedBlockLast<R>(t: Table, prefix: seq<seq<Column>>, cut: seq<Column>, threshold: int, m: Metric<R>)
    requires WellFormed(t) && ValidCuts(t, prefix) && ValidCut(t, cut)
    ensures ValidCuts(t, prefix + [cut]) && CutsHaveDims(t.rows, prefix + [cut])
    ensures WellFormed(Table(t.columns, NarrowAll(t.rows, prefix + [cut], threshold)))
    ensures PrunedBlock(t, prefix + [cut], threshold, m) ==
      ComputeMetric(Table(t.columns, NarrowAll(t.rows, prefix + [cut], threshold)), cut, m).value
  {
    ValidCutsAppend(t, prefix, cut);
    SubRowsWellFormed(t, NarrowAll(t.rows, prefix + [cut], threshold));
  }

  /** The metric block of one more cut. */
  lemma PrunedBlocksStep<R>(t: Table, prefix: seq<seq<Column>>, cut: seq<Column>, threshold: int, m: Metric<R>)
    requires WellFormed(t) && ValidCuts(t, prefix) && ValidCut(t, cut)
    ensures ValidCuts(t, prefix + [cut]) && CutsHaveDims(t.rows, prefix + [cut])
    ensures WellFormed(Table(t.columns, NarrowAll(t.rows, prefix + [cut], threshold)))
    ensures PrunedBlocks(t, prefix + [cut], threshold, m) == PrunedBlocks(t, prefix, threshold, m) +
      [ComputeMetric(Table(t.columns, NarrowAll(t.rows, prefix + [cut], threshold)), cut, m).value]
  {
    ValidCutsAppend(t, prefix, cut);
    PrunedBlockLast(t, prefix, cut, threshold, m);
    PrunedBlocksSnoc(t, prefix, cut, threshold, m);
  }

  /** One more cut keeps the checker's record within the loop's log, and
      the check of the narrowed table passes. */
  lemma CheckerStep(t: Table, prefix: seq<seq<Column>>, cut: seq<Column>, threshold: int, recorded: seq<Entry>)
    requires WellFormed(t) && ValidCuts(t, prefix) && ValidCut(t, cut)
    requires CutsHaveDims(t.rows, prefix)
    requires forall e :: e in recorded ==> e in PruneLog(t.rows, prefix, threshold)
    ensures ValidCuts(t, prefix + [cut]) && CutsHaveDims(t.rows, prefix + [cut])
    ensures var data := NarrowAll(t.rows, prefix + [cut], threshold);
      var pruned := Decide(NarrowAll(t.rows, prefix, threshold), cut, threshold).pruned;
      var next := Assign(recorded, cut, pruned);
      && LogHasDims(data, recorded) && AllHaveDims(data, cut)
      && LogHasDims(data, next) && NoLeak(data, next)
      && forall e :: e in next ==> e in PruneLog(t.rows, prefix + [cut], threshold)
  {
    PruneStep(t, prefix, cut, threshold);
    var cuts := prefix + [cut];
    var data := NarrowAll(t.rows, cuts, threshold);
    var log := PruneLog(t.rows, cuts, threshold);
    var pruned := Decide(NarrowAll(t.rows, prefix, threshold), cut, threshold).pruned;
    NoLeakAfterAll(t.rows, cuts, threshold);
    assert Entry(cut, pruned) in log;
    NoLeakSubLog(data, log, recorded);
    NoLeakSubLog(data, log, Assign(recorded, cut, pruned));
  }

  lemma SliceSnoc<T>(s: seq<T>, i: nat)
    requires i < |s|
    ensures s[..i + 1] == s[..i] + [s[i]]
  {
  }

  /** test_problem_2, with each cut's metric grouped on that cut: for every
      cut in turn, count its groups in the current table, prune the groups
      below the threshold from the table for this and all later cuts, have
      the checker confirm no pruned key survives, and compute the cut's
      metric on what is left. */
  method ProblemTwo<R>(t: Table, dims: seq<Column>, threshold: int, m: Metric<R>)
    returns (res: Result<(seq<Row>, seq<seq<MetricRow<R>>>), Error>)
    requires WellFormed(t)
    ensures res.Success? <==> forall d :: d in dims ==> d in t.columns
    ensures res.Failure? ==>
      res.error.UnknownDimension? && res.error.name in dims && res.error.name !in t.columns
    ensures res.Success? ==>
      && ValidCuts(t, AllSubsets(dims))
      && res.value.0 == NarrowAll(t.rows, AllSubsets(dims), threshold)
      && res.value.1 == PrunedBlocks(t, AllSubsets(dims), threshold, m)
    ensures res.Success? ==> multiset(res.value.0) <= multiset(t.rows)
    ensures res.Success? && Distinct(dims) ==> UniqueKeys(Flatten(res.value.1))
  {
    var subsets := DimensionSubsets(dims);
    AllSubsetsShape(dims);
    var data := t.rows;
    var results: seq<seq<MetricRow<R>>> := [];
    var checker := new BlacklistChecker();
    for i := 0 to |subsets|
      invariant ValidCuts(t, subsets[..i])
      invariant CutsHaveDims(t.rows, subsets[..i])
      invariant data == NarrowAll(t.rows, subsets[..i], threshold)
      invariant results == PrunedBlocks(t, subsets[..i], threshold, m)
      invariant forall e :: e in checker.toIgnore ==> e in PruneLog(t.rows, subsets[..i], threshold)
    {
      var group := subsets[i];
      assert group in subsets;
      SubseqElems(group, dims);
      var unknown := FirstUnknown(group, t.columns);
      if unknown.Some? {
        assert unknown.value in Elems(group);
        return Failure(UnknownDimension(unknown.value));
      }
      ghost var prefix := subsets[..i];
      SliceSnoc(subsets, i);
      PruneStep(t, prefix, group, threshold);
      PrunedBlocksStep(t, prefix, group, threshold, m);
      CheckerStep(t, prefix, group, threshold, checker.toIgnore);
      var decision := Decide(data, group, threshold);
      data := SemiJoin(data, group, Elems(decision.kept));
      var ok := checker.EnsureNoBlacklistedData(group, decision.pruned, data);
      assert ok;
      results := results + [ComputeMetric(Table(t.columns, data), group, m).value];
    }
    assert subsets[..|subsets|] == subsets;
    forall d | d in dims ensures d in t.columns {
      SingletonYielded(dims, d);
      var a :| 0 <= a < |subsets| && subsets[a] == [d];
      assert ValidCut(t, subsets[..|subsets|][a]);
    }
    res := Success((data, results));
    if Distinct(dims) {
      PrunedCutsUnique(t, dims, threshold, m);
    }
  }
}
