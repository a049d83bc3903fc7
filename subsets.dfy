/** The dimension subset generator: every non-empty subset of an ordered list
    of dimensions, grouped by size, each size in `itertools.combinations`
    order. */
module Subsets {
  import opened Collections

  /** `c` picks some elements of `s`, keeping their order. */
  predicate IsSubseq<T(==)>(c: seq<T>, s: seq<T>)
    decreases |s|
  {
    if c == [] then true
    else if s == [] then false
    else (c[0] == s[0] && IsSubseq(c[1..], s[1..])) || IsSubseq(c, s[1..])
  }

  /** Comparing the positions that `c` and `d` occupy in `s`, the first
      position where they differ belongs to `c`: lexicographic order of the
      position tuples, for subsequences of a list without repetitions. */
  predicate Precedes<T(==)>(c: seq<T>, d: seq<T>, s: seq<T>)
    decreases |s|
  {
    if s == [] || c == [] || d == [] then false
    else if c[0] == s[0] && d[0] == s[0] then Precedes(c[1..], d[1..], s[1..])
    else if c[0] == s[0] then true
    else if d[0] == s[0] then false
    else Precedes(c, d, s[1..])
  }

  /** Puts `x` in front of every sequence of `cs`. */
  function Prepend<T(==)>(x: T, cs: seq<seq<T>>): (r: seq<seq<T>>)
  {
    seq(|cs|, i requires 0 <= i < |cs| => [x] + cs[i])
  }

  /** `itertools.combinations(s, k)`: the k-element picks that take `s[0]`
      come first, followed by those that skip it; none when k > |s|. */
  function Combinations<T(==)>(s: seq<T>, k: nat): seq<seq<T>>
    decreases |s|, k
  {
    if k == 0 then [[]]
    else if |s| < k then []
    else Prepend(s[0], Combinations(s[1..], k - 1)) + Combinations(s[1..], k)
  }

  /** All combinations of sizes 1 to m, smaller sizes first. */
  function BySize<T(==)>(s: seq<T>, m: nat): seq<seq<T>>
  {
    if m == 0 then [] else BySize(s, m - 1) + Combinations(s, m)
  }

  /** What `dimension_subsets(dims)` yields. */
  function AllSubsets<T(==)>(dims: seq<T>): seq<seq<T>>
  {
    BySize(dims, |dims|)
  }

  function Pow2(n: nat): (r: nat)
    ensures r >= 1
  {
    if n == 0 then 1 else 2 * Pow2(n - 1)
  }

  lemma AppendNext<T>(a: seq<T>, b: seq<T>, j: nat)
    requires j < |b|
    ensures a + b[..j] + [b[j]] == a + b[..j + 1]
  {
    assert b[..j + 1] == b[..j] + [b[j]];
  }

  /** The inner loop of the generator: yields the combinations of one size,
      one after another, after those already yielded. */
  method YieldEach<T>(out: seq<seq<T>>, cs: seq<seq<T>>) returns (r: seq<seq<T>>)
    ensures r == out + cs
  {
    r := out;
    var j := 0;
    while j < |cs|
      invariant 0 <= j <= |cs|
      invariant r == out + cs[..j]
    {
      AppendNext(out, cs, j);
      r := r + [cs[j]];
      j := j + 1;
    }
    assert cs[..j] == cs;
  }

  /** The generator: the outer loop runs over sizes 1..k, the inner loop
      yields each combination of that size. */
  method DimensionSubsets<T(==)>(dims: seq<T>) returns (out: seq<seq<T>>)
    ensures out == AllSubsets(dims)
    ensures |out| == Pow2(|dims|) - 1
  {
    out := [];
    var i := 0;
    while i < |dims|
      invariant 0 <= i <= |dims|
      invariant out == BySize(dims, i)
    {
      out := YieldEach(out, Combinations(dims, i + 1));
      i := i + 1;
    }
    AllSubsetsCount(dims);
  }

  // ---------------------------------------------------------------- shape

  lemma {:induction false} CombinationsLength<T>(s: seq<T>, k: nat)
    ensures forall i :: 0 <= i < |Combinations(s, k)| ==> |Combinations(s, k)[i]| == k
    decreases |s|, k
  {
    if k != 0 && |s| >= k {
      CombinationsLength(s[1..], k - 1);
      CombinationsLength(s[1..], k);
    }
  }

  lemma {:induction false} CombinationsSubseq<T>(s: seq<T>, k: nat)
    ensures forall c :: c in Combinations(s, k) ==> IsSubseq(c, s)
    decreases |s|, k
  {
    if k != 0 && |s| >= k {
      CombinationsSubseq(s[1..], k - 1);
      CombinationsSubseq(s[1..], k);
      var p := Prepend(s[0], Combinations(s[1..], k - 1));
      forall c | c in p ensures IsSubseq(c, s) {
        var i :| 0 <= i < |p| && p[i] == c;
        assert c[1..] == Combinations(s[1..], k - 1)[i];
      }
    }
  }

  lemma {:induction false} BySizeLength<T>(s: seq<T>, m: nat)
    ensures forall i :: 0 <= i < |BySize(s, m)| ==> 1 <= |BySize(s, m)[i]| <= m
  {
    if m > 0 {
      BySizeLength(s, m - 1);
      CombinationsLength(s, m);
    }
  }

  lemma {:induction false} BySizeSubseq<T>(s: seq<T>, m: nat)
    ensures forall c :: c in BySize(s, m) ==> IsSubseq(c, s)
  {
    if m > 0 {
      BySizeSubseq(s, m - 1);
      CombinationsSubseq(s, m);
    }
  }

  /** Every yielded tuple has 1..k elements of `dims`, in input order. */
  lemma AllSubsetsShape<T>(dims: seq<T>)
    ensures forall i :: 0 <= i < |AllSubsets(dims)| ==> 1 <= |AllSubsets(dims)[i]| <= |dims|
    ensures forall c :: c in AllSubsets(dims) ==> IsSubseq(c, dims)
  {
    BySizeLength(dims, |dims|);
    BySizeSubseq(dims, |dims|);
  }

  /** Tuple lengths never decrease along the output. */
  lemma {:induction false} BySizeSizesAscend<T>(s: seq<T>, m: nat)
    ensures forall i, j :: 0 <= i < j < |BySize(s, m)| ==> |BySize(s, m)[i]| <= |BySize(s, m)[j]|
  {
    if m > 0 {
      BySizeSizesAscend(s, m - 1);
      BySizeLength(s, m - 1);
      CombinationsLength(s, m);
      var a, b := BySize(s, m - 1), Combinations(s, m);
      forall i, j | 0 <= i < j < |a + b| ensures |(a + b)[i]| <= |(a + b)[j]| {
        if j >= |a| {
          assert (a + b)[j] == b[j - |a|];
          if i < |a| {
            assert (a + b)[i] == a[i];
          } else {
            assert (a + b)[i] == b[i - |a|];
          }
        } else {
          assert (a + b)[j] == a[j];
          assert (a + b)[i] == a[i];
        }
      }
    }
  }

  /** The only combination of all k dimensions is the whole list, and it
      comes last. */
  lemma {:induction false} FullCombination<T>(s: seq<T>)
    ensures Combinations(s, |s|) == [s]
    decreases |s|
  {
    if |s| > 0 {
      FullCombination(s[1..]);
      assert [s[0]] + s[1..] == s;
    }
  }

  lemma LastIsWholeList<T>(dims: seq<T>)
    requires dims != []
    ensures AllSubsets(dims) != [] && AllSubsets(dims)[|AllSubsets(dims)| - 1] == dims
  {
    FullCombination(dims);
  }

  // ---------------------------------------------------------------- count

  lemma {:induction false} CombinationsEmptyAbove<T>(s: seq<T>, k: nat)
    requires k > |s|
    ensures Combinations(s, k) == []
  {
  }

  lemma {:induction false} CombinationsSplitCount<T>(s: seq<T>, k: nat)
    requires s != [] && k >= 1
    ensures |Combinations(s, k)| == |Combinations(s[1..], k - 1)| + |Combinations(s[1..], k)|
  {
    if |s| < k {
      CombinationsEmptyAbove(s[1..], k - 1);
      CombinationsEmptyAbove(s[1..], k);
    }
  }

  /** Counting the empty pick too: the picks of s of size at most m are
      those of s[1..] of size at most m - 1 (with s[0]) and of size at most m
      (without it). */
  lemma {:induction false} BySizeSplitCount<T>(s: seq<T>, m: nat)
    requires s != [] && m >= 1
    ensures 1 + |BySize(s, m)| == (1 + |BySize(s[1..], m - 1)|) + (1 + |BySize(s[1..], m)|)
  {
    CombinationsSplitCount(s, m);
    if m > 1 {
      BySizeSplitCount(s, m - 1);
    }
  }

  lemma {:induction false} BySizeCount<T>(s: seq<T>, m: nat)
    requires m >= |s|
    ensures |BySize(s, m)| == Pow2(|s|) - 1
    decreases |s|, m
  {
    if s == [] {
      if m > 0 {
        BySizeCount(s, m - 1);
        CombinationsEmptyAbove(s, m);
      }
    } else {
      BySizeSplitCount(s, m);
      BySizeCount(s[1..], m - 1);
      BySizeCount(s[1..], m);
    }
  }

  /** For k dimensions the generator yields 2^k - 1 tuples; nothing for an
      empty list. */
  lemma AllSubsetsCount<T>(dims: seq<T>)
    ensures |AllSubsets(dims)| == Pow2(|dims|) - 1
    ensures dims == [] ==> AllSubsets(dims) == []
  {
    BySizeCount(dims, |dims|);
  }
  // ---------------------------------------------------------------- picks

  lemma {:induction false} SubseqElems<T>(c: seq<T>, s: seq<T>)
    requires IsSubseq(c, s)
    ensures Elems(c) <= Elems(s)
    ensures |c| <= |s|
    decreases |s|
  {
    if c != [] {
      if c[0] == s[0] && IsSubseq(c[1..], s[1..]) {
        SubseqElems(c[1..], s[1..]);
        assert c == [c[0]] + c[1..];
        assert Elems(c) == {c[0]} + Elems(c[1..]);
      } else {
        SubseqElems(c, s[1..]);
      }
      assert s == [s[0]] + s[1..];
      assert Elems(s) == {s[0]} + Elems(s[1..]);
    }
  }

  lemma {:induction false} SubseqDistinct<T>(c: seq<T>, s: seq<T>)
    requires IsSubseq(c, s) && Distinct(s)
    ensures Distinct(c)
    decreases |s|
  {
    if c != [] {
      if c[0] == s[0] && IsSubseq(c[1..], s[1..]) {
        SubseqDistinct(c[1..], s[1..]);
        SubseqElems(c[1..], s[1..]);
        assert forall j :: 0 < j < |c| ==> c[j] in Elems(c[1..]);
        assert s[0] !in Elems(s[1..]);
      } else {
        SubseqDistinct(c, s[1..]);
      }
    }
  }

  /** A pick of a list without repetitions is determined by its elements. */
  lemma {:induction false} SubseqSetInjective<T>(c: seq<T>, d: seq<T>, s: seq<T>)
    requires Distinct(s) && IsSubseq(c, s) && IsSubseq(d, s) && Elems(c) == Elems(d)
    ensures c == d
    decreases |s|
  {
    if s == [] {
      assert c == [] && d == [];
    } else {
      var t := s[1..];
      assert s[0] !in Elems(t);
      if s[0] in Elems(c) {
        StartsWithHead(c, s);
        StartsWithHead(d, s);
        SubseqElems(c[1..], t);
        SubseqElems(d[1..], t);
        assert c == [c[0]] + c[1..] && d == [d[0]] + d[1..];
        assert Elems(c[1..]) == Elems(c) - {s[0]};
        assert Elems(d[1..]) == Elems(d) - {s[0]};
        SubseqSetInjective(c[1..], d[1..], t);
      } else {
        SkipsHead(c, s);
        SkipsHead(d, s);
        SubseqSetInjective(c, d, t);
      }
    }
  }

  lemma {:induction false} StartsWithHead<T>(c: seq<T>, s: seq<T>)
    requires Distinct(s) && IsSubseq(c, s) && s != [] && s[0] in Elems(c)
    ensures c != [] && c[0] == s[0] && IsSubseq(c[1..], s[1..])
  {
    assert s[0] !in Elems(s[1..]);
    if !(c[0] == s[0] && IsSubseq(c[1..], s[1..])) {
      SubseqElems(c, s[1..]);
      assert false;
    }
  }

  lemma {:induction false} SkipsHead<T>(c: seq<T>, s: seq<T>)
    requires IsSubseq(c, s) && s != [] && s[0] !in Elems(c)
    ensures IsSubseq(c, s[1..])
  {
    if c != [] {
      assert c[0] in Elems(c);
    }
  }

  /** Every pick of k elements is among `Combinations(s, k)`. */
  lemma {:induction false} CombinationsComplete<T>(c: seq<T>, s: seq<T>)
    requires IsSubseq(c, s)
    ensures c in Combinations(s, |c|)
    decreases |s|
  {
    if c != [] {
      SubseqElems(c, s);
      var t := s[1..];
      var taking := Prepend(s[0], Combinations(t, |c| - 1));
      var skipping := Combinations(t, |c|);
      assert Combinations(s, |c|) == taking + skipping;
      if c[0] == s[0] && IsSubseq(c[1..], t) {
        CombinationsComplete(c[1..], t);
        var inner := Combinations(t, |c| - 1);
        var i :| 0 <= i < |inner| && inner[i] == c[1..];
        assert taking[i] == c;
        assert c in taking;
      } else {
        CombinationsComplete(c, t);
        assert c in skipping;
      }
    }
  }

  lemma {:induction false} BySizeContains<T>(s: seq<T>, m: nat, c: seq<T>)
    requires 1 <= |c| <= m && c in Combinations(s, |c|)
    ensures c in BySize(s, m)
  {
    var lower := BySize(s, m - 1);
    var top := Combinations(s, m);
    assert BySize(s, m) == lower + top;
    if |c| < m {
      BySizeContains(s, m - 1, c);
      assert c in lower;
    } else {
      assert c in top;
    }
  }

  /** The elements of `s` that lie in `S`, in input order. */
  function Restrict<T>(s: seq<T>, S: set<T>): (r: seq<T>)
    ensures IsSubseq(r, s)
    ensures Elems(r) == Elems(s) * S
    decreases |s|
  {
    if s == [] then []
    else
      var rest := Restrict(s[1..], S);
      assert Elems(s) == {s[0]} + Elems(s[1..]) by { assert s == [s[0]] + s[1..]; }
      if s[0] in S then
        assert Elems([s[0]] + rest) == {s[0]} + Elems(rest);
        [s[0]] + rest
      else rest
  }

  lemma {:induction false} DistinctCard<T>(c: seq<T>)
    requires Distinct(c)
    ensures |Elems(c)| == |c|
  {
    if c != [] {
      var t := c[1..];
      DistinctCard(t);
      assert c == [c[0]] + t;
      assert Elems(c) == {c[0]} + Elems(t);
      assert c[0] !in Elems(t);
    }
  }

  // ---------------------------------------------------------------- order

  lemma {:induction false} PrecedesIrreflexive<T>(c: seq<T>, s: seq<T>)
    ensures !Precedes(c, c, s)
    decreases |s|
  {
    if s != [] && c != [] {
      if c[0] == s[0] {
        PrecedesIrreflexive(c[1..], s[1..]);
      } else {
        PrecedesIrreflexive(c, s[1..]);
      }
    }
  }

  /** Within one size, combinations come in lexicographic order of the
      input positions they pick. */
  lemma {:induction false} CombinationsSorted<T>(s: seq<T>, k: nat)
    requires Distinct(s)
    ensures forall i, j :: 0 <= i < j < |Combinations(s, k)| ==>
      Precedes(Combinations(s, k)[i], Combinations(s, k)[j], s)
    decreases |s|, k
  {
    if k != 0 && |s| >= k {
      var t := s[1..];
      assert Distinct(t);
      assert s[0] !in Elems(t);
      var c1, c2 := Combinations(t, k - 1), Combinations(t, k);
      var p := Prepend(s[0], c1);
      var cs := p + c2;
      CombinationsSorted(t, k - 1);
      CombinationsSorted(t, k);
      CombinationsLength(t, k);
      CombinationsSubseq(t, k);
      forall i, j | 0 <= i < j < |cs| ensures Precedes(cs[i], cs[j], s) {
        if j >= |p| {
          var d := c2[j - |p|];
          assert cs[j] == d;
          assert d in c2;
          SubseqElems(d, t);
          assert d[0] in Elems(d);
          if i < |p| {
            assert cs[i] == [s[0]] + c1[i];
          } else {
            var c := c2[i - |p|];
            assert cs[i] == c;
            assert c in c2;
            SubseqElems(c, t);
            assert c[0] in Elems(c);
          }
        } else {
          assert cs[i] == [s[0]] + c1[i] && cs[i][1..] == c1[i];
          assert cs[j] == [s[0]] + c1[j] && cs[j][1..] == c1[j];
        }
      }
    }
  }

  lemma {:induction false} BySizeOrdered<T>(s: seq<T>, m: nat)
    requires Distinct(s)
    ensures forall i, j :: 0 <= i < j < |BySize(s, m)| ==>
      if |BySize(s, m)[i]| == |BySize(s, m)[j]| then Precedes(BySize(s, m)[i], BySize(s, m)[j], s)
      else |BySize(s, m)[i]| < |BySize(s, m)[j]|
  {
    if m > 0 {
      var a, b := BySize(s, m - 1), Combinations(s, m);
      BySizeOrdered(s, m - 1);
      BySizeLength(s, m - 1);
      CombinationsLength(s, m);
      CombinationsSorted(s, m);
      OrderedAppend(a, b, s, m);
      assert BySize(s, m) == a + b;
    }
  }

  /** Appending same-length tuples in order, all longer than the tuples
      before them, keeps the output ordered. */
  lemma OrderedAppend<T>(a: seq<seq<T>>, b: seq<seq<T>>, s: seq<T>, m: nat)
    requires forall i, j :: 0 <= i < j < |a| ==>
      if |a[i]| == |a[j]| then Precedes(a[i], a[j], s) else |a[i]| < |a[j]|
    requires forall i :: 0 <= i < |a| ==> |a[i]| < m
    requires forall i :: 0 <= i < |b| ==> |b[i]| == m
    requires forall i, j :: 0 <= i < j < |b| ==> Precedes(b[i], b[j], s)
    ensures forall i, j :: 0 <= i < j < |a + b| ==>
      if |(a + b)[i]| == |(a + b)[j]| then Precedes((a + b)[i], (a + b)[j], s)
      else |(a + b)[i]| < |(a + b)[j]|
  {
    forall i, j | 0 <= i < j < |a + b|
      ensures if |(a + b)[i]| == |(a + b)[j]| then Precedes((a + b)[i], (a + b)[j], s)
              else |(a + b)[i]| < |(a + b)[j]|
    {
      if j >= |a| {
        assert (a + b)[j] == b[j - |a|];
        if i < |a| {
          assert (a + b)[i] == a[i];
        } else {
          assert (a + b)[i] == b[i - |a|];
        }
      } else {
        assert (a + b)[j] == a[j];
        assert (a + b)[i] == a[i];
      }
    }
  }

  /** Lengths never decrease along the output, and tuples of equal length
      appear in lexicographic order of input positions. */
  lemma AllSubsetsOrdered<T>(dims: seq<T>)
    requires Distinct(dims)
    ensures forall i, j :: 0 <= i < j < |AllSubsets(dims)| ==>
      if |AllSubsets(dims)[i]| == |AllSubsets(dims)[j]| then Precedes(AllSubsets(dims)[i], AllSubsets(dims)[j], dims)
      else |AllSubsets(dims)[i]| < |AllSubsets(dims)[j]|
    ensures forall i, j ::
      (0 <= i < |AllSubsets(dims)| && 0 <= j < |AllSubsets(dims)| && |AllSubsets(dims)[i]| == |AllSubsets(dims)[j]|) ==>
      (i < j <==> Precedes(AllSubsets(dims)[i], AllSubsets(dims)[j], dims))
  {
    var out := AllSubsets(dims);
    BySizeOrdered(dims, |dims|);
    forall i, j | 0 <= i < |out| && 0 <= j < |out| && |out[i]| == |out[j]| && Precedes(out[i], out[j], dims)
      ensures i < j
    {
      if j < i {
        PrecedesAsym(out[j], out[i], dims);
      } else if i == j {
        PrecedesIrreflexive(out[i], dims);
      }
    }
  }

  /** Of two tuples, at most one precedes the other. */
  lemma {:induction false} PrecedesAsym<T>(c: seq<T>, d: seq<T>, s: seq<T>)
    requires Precedes(c, d, s)
    ensures !Precedes(d, c, s)
    decreases |s|
  {
    if c[0] == s[0] && d[0] == s[0] {
      PrecedesAsym(c[1..], d[1..], s[1..]);
    } else if c[0] != s[0] && d[0] != s[0] {
      PrecedesAsym(c, d, s[1..]);
    }
  }

  // ---------------------------------------------------------------- coverage

  /** `S` is a non-empty subset of the dimensions. */
  predicate NonEmptySubset<T>(S: set<T>, dims: seq<T>) {
    S != {} && S <= Elems(dims)
  }

  /** Every yielded tuple lists a non-empty subset of the dimensions without
      repetition; every non-empty subset is listed by exactly one tuple. */
  lemma EachSubsetOnce<T>(dims: seq<T>)
    requires Distinct(dims)
    ensures forall i :: 0 <= i < |AllSubsets(dims)| ==>
      Distinct(AllSubsets(dims)[i]) && NonEmptySubset(Elems(AllSubsets(dims)[i]), dims)
    ensures forall S :: NonEmptySubset(S, dims) ==>
      exists i :: 0 <= i < |AllSubsets(dims)| && Elems(AllSubsets(dims)[i]) == S
    ensures forall i, j ::
      (0 <= i < |AllSubsets(dims)| && 0 <= j < |AllSubsets(dims)| &&
       Elems(AllSubsets(dims)[i]) == Elems(AllSubsets(dims)[j])) ==> i == j
  {
    var out := AllSubsets(dims);
    AllSubsetsShape(dims);
    AllSubsetsOrdered(dims);
    forall i | 0 <= i < |out|
      ensures Distinct(out[i]) && NonEmptySubset(Elems(out[i]), dims)
    {
      assert out[i] in out;
      SubseqDistinct(out[i], dims);
      SubseqElems(out[i], dims);
      assert out[i][0] in Elems(out[i]);
    }
    forall S | NonEmptySubset(S, dims)
      ensures exists i :: 0 <= i < |out| && Elems(out[i]) == S
    {
      var c := Restrict(dims, S);
      SubseqDistinct(c, dims);
      DistinctCard(c);
      assert Elems(c) == S;
      SubseqElems(c, dims);
      DistinctCard(dims);
      assert |S| >= 1;
      CombinationsComplete(c, dims);
      BySizeContains(dims, |dims|, c);
      var i :| 0 <= i < |out| && out[i] == c;
    }
    forall i, j | 0 <= i < |out| && 0 <= j < |out| && Elems(out[i]) == Elems(out[j])
      ensures i == j
    {
      assert out[i] in out && out[j] in out;
      SubseqSetInjective(out[i], out[j], dims);
    }
  }
}
