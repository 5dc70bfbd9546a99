// What partition promises its callers: the makespan bound in terms of files,
// exact cover, independence of the listing order, and balance.
module ShardingResults {
  import opened Wrappers
  import opened Collections
  import opened Sorting
  import opened Sums
  import opened Sharding
  import opened ShardingBound

  lemma BeforeIsTotal()
    ensures TotalPreorder(Before)
    ensures forall x, y :: Before(x, y) && Before(y, x) ==> x == y
  {
    StringOrder();
  }

  function ToTuple(weights: WeightMap, fallback: real): string -> Tuple {
    (f: string) => Tuple(f, weights.Get(f, fallback))
  }

  function PathOf(t: Tuple): string {
    t.path
  }

  // Every tuple carries the weight its path looks up.
  ghost predicate Honest(ts: seq<Tuple>, weights: WeightMap, fallback: real) {
    forall i :: 0 <= i < |ts| ==> ts[i].weight == weights.Get(ts[i].path, fallback)
  }

  lemma SortedTuplesFacts(files: seq<string>, weights: WeightMap, fallback: real)
    ensures var ts := SortedTuples(files, weights, fallback);
      && Sorted(Before, ts) && HeaviestFirst(ts) && Honest(ts, weights, fallback)
      && multiset(ts) == multiset(Mapped(ToTuple(weights, fallback), files))
      && (weights.NonNegative() && fallback >= 0.0 ==> NonNegative(ts))
  {
    BeforeIsTotal();
    var unsorted := TuplesOf(files, weights, fallback);
    var ts := SortedTuples(files, weights, fallback);
    SortSorts(Before, unsorted);
    assert unsorted == Mapped(ToTuple(weights, fallback), files);
    forall i | 0 <= i < |ts|
      ensures ts[i].weight == weights.Get(ts[i].path, fallback)
    {
      assert ts[i] in multiset(unsorted);
    }
  }

  lemma MedianNonNegative(values: seq<real>)
    requires forall v :: v in values ==> v >= 0.0
    ensures ComputeMedian(values) >= 0.0
  {
    var sorted := Sort(RealLeq, values);
    forall i | 0 <= i < |sorted| ensures sorted[i] >= 0.0 {
      assert sorted[i] in multiset(sorted);
      assert sorted[i] in values;
    }
  }

  lemma FallbackNonNegative(weights: WeightMap, override: Option<real>)
    requires weights.Valid() && weights.NonNegative() && (override.Some? ==> override.value >= 0.0)
    ensures EffectiveFallback(weights, override) >= 0.0
  {
    MedianNonNegative(weights.Values());
  }

  ghost predicate Ascending(xs: seq<real>) {
    forall i, j :: 0 <= i <= j < |xs| ==> xs[i] <= xs[j]
  }

  lemma RealOrder()
    ensures TotalPreorder(RealLeq)
  {
  }

  lemma SortedIsAscending(xs: seq<real>)
    requires Sorted(RealLeq, xs)
    ensures Ascending(xs)
  {
    forall i, j | 0 <= i < j < |xs| ensures xs[i] <= xs[j] {
      assert RealLeq(xs[i], xs[j]);
    }
  }

  lemma MiddleBetween(sorted: seq<real>, i: nat)
    requires i < |sorted| && Ascending(sorted)
    ensures i < |sorted| - |sorted| / 2 ==> sorted[i] <= MiddleOf(sorted)
    ensures i >= |sorted| / 2 ==> MiddleOf(sorted) <= sorted[i]
  {
  }

  lemma MiddleHalf(sorted: seq<real>, half: nat, upper: nat)
    requires sorted != [] && Ascending(sorted) && half == |sorted| / 2 && upper == |sorted| - half
    ensures forall i :: 0 <= i < half ==> sorted[i] <= MiddleOf(sorted)
    ensures forall i :: half <= i < upper ==> sorted[i] == MiddleOf(sorted)
    ensures forall i :: upper <= i < |sorted| ==> MiddleOf(sorted) <= sorted[i]
  {
    forall i | 0 <= i < |sorted|
      ensures i < upper ==> sorted[i] <= MiddleOf(sorted)
      ensures i >= half ==> MiddleOf(sorted) <= sorted[i]
    {
      MiddleBetween(sorted, i);
    }
  }

  lemma AscendingSlice(sorted: seq<real>, a: nat, b: nat)
    requires a <= b <= |sorted| && Ascending(sorted)
    ensures Ascending(sorted[a..b])
  {
  }

  lemma MiddleSplits(sorted: seq<real>) returns (low: seq<real>, middle: seq<real>, high: seq<real>)
    requires sorted != [] && Ascending(sorted)
    ensures multiset(sorted) == multiset(low) + multiset(middle) + multiset(high)
    ensures |low| == |high| == |sorted| / 2 && |middle| == |sorted| % 2
    ensures forall i :: 0 <= i < |low| ==> low[i] <= MiddleOf(sorted)
    ensures forall i :: 0 <= i < |middle| ==> middle[i] == MiddleOf(sorted)
    ensures forall i :: 0 <= i < |high| ==> MiddleOf(sorted) <= high[i]
    ensures middle == [] ==> 2.0 * MiddleOf(sorted) == low[|low| - 1] + high[0]
    ensures Ascending(low) && Ascending(high)
  {
    var half := |sorted| / 2;
    var upper := |sorted| - half;
    low, middle, high := sorted[..half], sorted[half..upper], sorted[upper..];
    ThreeParts(sorted, half, upper);
    MiddleHalf(sorted, half, upper);
    AscendingSlice(sorted, 0, half);
    AscendingSlice(sorted, upper, |sorted|);
    assert sorted[0..half] == low && sorted[upper..|sorted|] == high;
  }

  // The median leaves equally many values on either side, and is the middle
  // value or halfway between the two nearest ones.
  lemma MedianSplits(values: seq<real>) returns (low: seq<real>, middle: seq<real>, high: seq<real>)
    requires values != []
    ensures multiset(values) == multiset(low) + multiset(middle) + multiset(high)
    ensures |low| == |high| == |values| / 2 && |middle| == |values| % 2
    ensures forall i :: 0 <= i < |low| ==> low[i] <= ComputeMedian(values)
    ensures forall i :: 0 <= i < |middle| ==> middle[i] == ComputeMedian(values)
    ensures forall i :: 0 <= i < |high| ==> ComputeMedian(values) <= high[i]
    ensures middle == [] ==> 2.0 * ComputeMedian(values) == low[|low| - 1] + high[0]
    ensures Ascending(low) && Ascending(high)
  {
    RealOrder();
    SortSorts(RealLeq, values);
    SortedIsAscending(Sort(RealLeq, values));
    low, middle, high := MiddleSplits(Sort(RealLeq, values));
  }

  lemma {:induction false} AllCopies(xs: seq<real>, x: real)
    requires forall i :: 0 <= i < |xs| ==> xs[i] == x
    ensures multiset(xs)[x] == |xs|
  {
    if xs != [] {
      AllCopies(xs[1..], x);
      assert xs == [xs[0]] + xs[1..];
    }
  }

  lemma NoCopies(xs: seq<real>, x: real)
    requires forall i :: 0 <= i < |xs| ==> xs[i] != x
    ensures multiset(xs)[x] == 0
  {
    assert x !in xs;
  }

  lemma PartOf(part: seq<real>, whole: seq<real>, rest: multiset<real>)
    requires multiset(whole) == multiset(part) + rest && forall v :: v in whole ==> v >= 0.0
    ensures forall i :: 0 <= i < |part| ==> part[i] >= 0.0
  {
    forall i | 0 <= i < |part| ensures part[i] >= 0.0 {
      assert multiset(part)[part[i]] > 0;
      assert multiset(whole)[part[i]] == multiset(part)[part[i]] + rest[part[i]];
      assert part[i] in multiset(whole);
      assert part[i] in whole;
    }
  }

  // Which of the three parts around the median hold the zeros.
  lemma ZerosAround(low: seq<real>, middle: seq<real>, high: seq<real>, median: real)
    requires |low| == |high| && |middle| <= 1 && (middle == [] ==> low != [] && 2.0 * median == low[|low| - 1] + high[0])
    requires forall i :: 0 <= i < |low| ==> 0.0 <= low[i] <= median
    requires forall i :: 0 <= i < |middle| ==> middle[i] == median
    requires forall i :: 0 <= i < |high| ==> median <= high[i]
    requires Ascending(high) && median >= 0.0
    ensures median == 0.0 <==> (multiset(low) + multiset(middle) + multiset(high))[0.0] >= |low| + 1
  {
    if median == 0.0 {
      AllCopies(low, 0.0);
      AllCopies(middle, 0.0);
      if middle == [] {
        assert high == [high[0]] + high[1..];
        assert multiset(high)[0.0] >= 1;
      }
    } else {
      NoCopies(middle, 0.0);
      NoCopies(high, 0.0);
      CopiesBounded(low, 0.0);
    }
  }

  lemma {:induction false} CopiesBounded(xs: seq<real>, x: real)
    ensures multiset(xs)[x] <= |xs|
  {
    if xs != [] {
      CopiesBounded(xs[1..], x);
      assert xs == [xs[0]] + xs[1..];
    }
  }

  lemma ZeroMedianIff(values: seq<real>)
    requires forall v :: v in values ==> v >= 0.0
    ensures ComputeMedian(values) == 0.0 <==> values == [] || multiset(values)[0.0] >= |values| / 2 + 1
  {
    if values != [] {
      var low, middle, high := MedianSplits(values);
      MedianNonNegative(values);
      PartOf(low, values, multiset(middle) + multiset(high));
      ZerosAround(low, middle, high, ComputeMedian(values));
    }
  }

  // When a file without a weight counts as one instead of as the median: with
  // no weights at all, as the comment there says, but also whenever more than
  // half of the weights are zero.
  lemma FallbackIsOneIff(weights: WeightMap)
    requires weights.Valid() && weights.NonNegative()
    ensures var values := weights.Values();
      var fallback := EffectiveFallback(weights, None);
      if values == [] || multiset(values)[0.0] >= |values| / 2 + 1
      then ComputeMedian(values) == 0.0 && fallback == 1.0
      else ComputeMedian(values) > 0.0 && fallback == ComputeMedian(values)
  {
    ZeroMedianIff(weights.Values());
    MedianNonNegative(weights.Values());
  }

  // One file of weight zero on record is enough for that.
  lemma LoneZeroWeight(file: string)
    ensures var weights := WeightMap([file], map[file := 0.0]);
      weights.Valid() && weights.NonNegative() && EffectiveFallback(weights, None) == 1.0
  {
    var weights := WeightMap([file], map[file := 0.0]);
    assert weights.Values() == [0.0];
    FallbackIsOneIff(weights);
  }

  // The sum recomputed from the paths is the sum of the tuples.
  lemma {:induction false} TotalOfPaths(xs: seq<Tuple>, weights: WeightMap, fallback: real)
    requires Honest(xs, weights, fallback)
    ensures TotalOf(PathsOf(xs), weights, fallback) == Sum(Weight, xs)
  {
    if xs != [] {
      var k := |xs| - 1;
      TotalOfPaths(xs[..k], weights, fallback);
      assert PathsOf(xs)[..k] == PathsOf(xs[..k]);
    }
  }

  // Everything dealt to a shard was among the tuples.
  lemma ShardHonest(ts: seq<Tuple>, n: nat, s: nat, weights: WeightMap, fallback: real)
    requires s < n && Honest(ts, weights, fallback)
    ensures Honest(Deal(ts, n).shards[s], weights, fallback)
  {
    DealConserves(ts, n);
    forall i | 0 <= i < |Deal(ts, n).shards[s]|
      ensures var t := Deal(ts, n).shards[s][i]; t.weight == weights.Get(t.path, fallback)
    {
      GroupMember(ts, n, Deal(ts, n).shards, s, i);
    }
  }

  // The running totals equal the sums imbalanceRatio recomputes.
  lemma TotalsRecomputed(files: seq<string>, weights: WeightMap, n: nat, override: Option<real>, s: nat)
    requires s < n && weights.Valid()
    ensures var fallback := EffectiveFallback(weights, override);
      TotalOf(ShardsOf(files, weights, n, override)[s], weights, fallback)
        == Deal(SortedTuples(files, weights, fallback), n).totals[s]
  {
    var fallback := EffectiveFallback(weights, override);
    var ts := SortedTuples(files, weights, fallback);
    SortedTuplesFacts(files, weights, fallback);
    ShardHonest(ts, n, s, weights, fallback);
    TotalOfPaths(Deal(ts, n).shards[s], weights, fallback);
    TotalsAreSums(ts, n, s);
  }

  lemma RivalOfFiles(files: seq<string>, weights: WeightMap, fallback: real, n: nat, rival: seq<seq<string>>, makespan: real)
    requires |rival| == n && multiset(Flatten(rival)) == multiset(files)
    requires forall j :: 0 <= j < n ==> TotalOf(rival[j], weights, fallback) <= makespan
    ensures Rival(SortedTuples(files, weights, fallback), n, MappedGroups(ToTuple(weights, fallback), rival), makespan)
  {
    var f := ToTuple(weights, fallback);
    SortedTuplesFacts(files, weights, fallback);
    FlattenMapped(f, rival);
    MapPermuted(f, Flatten(rival), files);
    forall j | 0 <= j < n ensures Sum(Weight, MappedGroups(f, rival)[j]) <= makespan {
      var group := Mapped(f, rival[j]);
      TotalOfPaths(group, weights, fallback);
      assert PathsOf(group) == rival[j];
    }
  }

  lemma ShardWithinBound(files: seq<string>, weights: WeightMap, n: nat, override: Option<real>,
                         rival: seq<seq<string>>, makespan: real, s: nat)
    requires weights.Valid() && weights.NonNegative() && (override.Some? ==> override.value >= 0.0)
    requires s < n && |rival| == n && multiset(Flatten(rival)) == multiset(files)
    requires forall j :: 0 <= j < n ==> TotalOf(rival[j], weights, EffectiveFallback(weights, override)) <= makespan
    ensures makespan >= 0.0
    ensures WithinBound(n, TotalOf(ShardsOf(files, weights, n, override)[s], weights, EffectiveFallback(weights, override)), makespan)
  {
    var fallback := EffectiveFallback(weights, override);
    FallbackNonNegative(weights, override);
    RivalOfFiles(files, weights, fallback, n, rival, makespan);
    SortedTuplesFacts(files, weights, fallback);
    DealWithinBound(SortedTuples(files, weights, fallback), n, MappedGroups(ToTuple(weights, fallback), rival), makespan);
    TotalsRecomputed(files, weights, n, override, s);
  }

  // total <= (4/3 - 1/(3n)) * makespan, cleared of fractions, and so total <= 4/3 * makespan.
  ghost predicate GrahamBound(n: nat, total: real, makespan: real) {
    && 3.0 * ((n as real) * total) <= (4.0 * (n as real) - 1.0) * makespan
    && 3.0 * total <= 4.0 * makespan
  }

  // The fallback for a file without a weight, on the recorded weights alone: an
  // override, or one if there are no weights or more than half of them are zero,
  // or else their median.
  ghost predicate IsFallback(weights: WeightMap, override: Option<real>, c: real)
    requires weights.Valid()
  {
    match override
    case Some(w) => c == w
    case None => exists values ::
      && Recorded(weights, values)
      && if values == [] || multiset(values)[0.0] >= |values| / 2 + 1 then c == 1.0 else IsMedian(values, c)
  }

  ghost predicate Recorded(weights: WeightMap, values: seq<real>)
    requires weights.Valid()
  {
    && |values| == |weights.order|
    && forall i :: 0 <= i < |values| ==> weights.order[i] in weights.at && values[i] == weights.at[weights.order[i]]
  }

  ghost predicate IsMedian(values: seq<real>, m: real) {
    exists low, middle, high :: IsMedianAt(values, m, low, middle, high)
  }

  ghost predicate IsMedianAt(values: seq<real>, m: real, low: seq<real>, middle: seq<real>, high: seq<real>) {
    && multiset(values) == multiset(low) + multiset(middle) + multiset(high)
    && |low| == |high| == |values| / 2 && |middle| == |values| % 2
    && (forall i :: 0 <= i < |low| ==> low[i] <= m)
    && (forall i :: 0 <= i < |middle| ==> middle[i] == m)
    && (forall i :: 0 <= i < |high| ==> m <= high[i])
    && (middle == [] ==> low != [] && 2.0 * m == low[|low| - 1] + high[0])
    && Ascending(low) && Ascending(high)
  }

  lemma RecordedIsValues(weights: WeightMap, values: seq<real>)
    requires weights.Valid() && Recorded(weights, values)
    ensures values == weights.Values()
  {
  }

  lemma SameMedian(sorted: seq<real>, m: real, low: seq<real>, middle: seq<real>, high: seq<real>)
    requires sorted == low + middle + high && sorted != []
    requires |low| == |high| == |sorted| / 2 && |middle| == |sorted| % 2
    requires forall i :: 0 <= i < |middle| ==> middle[i] == m
    requires middle == [] ==> low != [] && 2.0 * m == low[|low| - 1] + high[0]
    ensures m == MiddleOf(sorted)
  {
    if middle == [] {
      assert sorted[|low| - 1] == low[|low| - 1] && sorted[|low|] == high[0];
    } else {
      assert sorted[|low|] == middle[0];
    }
  }

  lemma PartsAscend(m: real, low: seq<real>, middle: seq<real>, high: seq<real>)
    requires forall i :: 0 <= i < |low| ==> low[i] <= m
    requires forall i :: 0 <= i < |middle| ==> middle[i] == m
    requires forall i :: 0 <= i < |high| ==> m <= high[i]
    requires Ascending(low) && Ascending(high)
    ensures Sorted(RealLeq, low + middle + high)
  {
  }

  // There is one median only.
  lemma MedianIs(values: seq<real>, m: real, low: seq<real>, middle: seq<real>, high: seq<real>)
    requires values != [] && IsMedianAt(values, m, low, middle, high)
    ensures m == ComputeMedian(values)
  {
    var joined := low + middle + high;
    RealOrder();
    SortSorts(RealLeq, values);
    PartsAscend(m, low, middle, high);
    SortedUnique(RealLeq, joined, Sort(RealLeq, values));
    SameMedian(joined, m, low, middle, high);
  }

  lemma FallbackIs(weights: WeightMap, override: Option<real>)
    requires weights.Valid() && weights.NonNegative()
    ensures IsFallback(weights, override, EffectiveFallback(weights, override))
  {
    if override == None {
      var values := weights.Values();
      FallbackIsOneIff(weights);
      assert Recorded(weights, values);
      if !(values == [] || multiset(values)[0.0] >= |values| / 2 + 1) {
        var low, middle, high := MedianSplits(values);
        assert IsMedianAt(values, ComputeMedian(values), low, middle, high);
      }
    }
  }

  lemma FallbackUnique(weights: WeightMap, override: Option<real>, c: real)
    requires weights.Valid() && weights.NonNegative() && IsFallback(weights, override, c)
    ensures c == EffectiveFallback(weights, override)
  {
    if override == None {
      var values :| Recorded(weights, values)
        && if values == [] || multiset(values)[0.0] >= |values| / 2 + 1 then c == 1.0 else IsMedian(values, c);
      RecordedIsValues(weights, values);
      FallbackIsOneIff(weights);
      if !(values == [] || multiset(values)[0.0] >= |values| / 2 + 1) {
        var low, middle, high :| IsMedianAt(values, c, low, middle, high);
        MedianIs(values, c, low, middle, high);
      }
    }
  }

  // What each file weighs: its recorded weight, or the fallback.
  ghost predicate WeighedBy(files: seq<string>, weights: WeightMap, c: real, w: string -> real) {
    forall f :: f in files ==> w(f) == if f in weights.at then weights.at[f] else c
  }

  lemma {:induction false} TotalIsSum(shard: seq<string>, weights: WeightMap, c: real, w: string -> real)
    requires WeighedBy(shard, weights, c, w)
    ensures TotalOf(shard, weights, c) == Sum(w, shard)
  {
    if shard != [] {
      var k := |shard| - 1;
      TotalIsSum(shard[..k], weights, c, w);
    }
  }

  lemma GroupWeighedBy(files: seq<string>, groups: seq<seq<string>>, s: nat, weights: WeightMap, c: real, w: string -> real)
    requires multiset(Flatten(groups)) == multiset(files) && s < |groups| && WeighedBy(files, weights, c, w)
    ensures WeighedBy(groups[s], weights, c, w)
  {
    FlattenUpdate(groups, s, groups[s]);
    forall f | f in groups[s] ensures f in files {
      assert f in multiset(groups[s]);
      assert f in multiset(files);
    }
  }

  lemma {:induction false} SameTuples(files: seq<string>, a: WeightMap, ca: real, b: WeightMap, cb: real)
    requires forall f :: f in files ==> a.Get(f, ca) == b.Get(f, cb)
    ensures TuplesOf(files, a, ca) == TuplesOf(files, b, cb)
  {
    forall i | 0 <= i < |files| ensures TuplesOf(files, a, ca)[i] == TuplesOf(files, b, cb)[i] {
      assert files[i] in files;
    }
  }

  // A file counts with its recorded weight, or with the fallback: partition does
  // the same with a map that lists every file explicitly.
  lemma ExplicitWeights(files: seq<string>, weights: WeightMap, n: nat, override: Option<real>, c: real,
                        explicit: WeightMap, override': Option<real>)
    requires n > 0 && weights.Valid() && weights.NonNegative() && IsFallback(weights, override, c) && explicit.Valid()
    requires forall f :: f in files ==> f in explicit.at && explicit.at[f] == if f in weights.at then weights.at[f] else c
    ensures ShardsOf(files, weights, n, override) == ShardsOf(files, explicit, n, override')
  {
    FallbackUnique(weights, override, c);
    SameTuples(files, weights, c, explicit, EffectiveFallback(explicit, override'));
  }

  // Graham's bound for partition, against any other way of putting the same
  // files on n shards, for files that weigh what is recorded or the fallback.
  lemma PartitionMakespan(files: seq<string>, weights: WeightMap, n: nat, override: Option<real>, c: real, w: string -> real,
                          rival: seq<seq<string>>, makespan: real, s: nat)
    requires weights.Valid() && weights.NonNegative() && (override.Some? ==> override.value >= 0.0)
    requires IsFallback(weights, override, c) && WeighedBy(files, weights, c, w)
    requires s < n && |rival| == n && multiset(Flatten(rival)) == multiset(files)
    requires forall j :: 0 <= j < n ==> Sum(w, rival[j]) <= makespan
    ensures GrahamBound(n, Sum(w, ShardsOf(files, weights, n, override)[s]), makespan)
  {
    var shards := ShardsOf(files, weights, n, override);
    FallbackUnique(weights, override, c);
    forall j | 0 <= j < n ensures TotalOf(rival[j], weights, c) <= makespan {
      GroupWeighedBy(files, rival, j, weights, c, w);
      TotalIsSum(rival[j], weights, c, w);
    }
    ShardWithinBound(files, weights, n, override, rival, makespan, s);
    BoundAsProducts(n, TotalOf(shards[s], weights, c), makespan);
    PartitionCovers(files, weights, n, override);
    GroupWeighedBy(files, shards, s, weights, c, w);
    TotalIsSum(shards[s], weights, c, w);
  }

  // ---- the imbalance ratio, exactly ----

  // The heaviest and the lightest of the shards' sums.
  ghost predicate Extremes(sums: seq<real>, max: real, min: real) {
    && max in sums && min in sums
    && forall i :: 0 <= i < |sums| ==> min <= sums[i] <= max
  }

  lemma SumsAreTotals(shards: seq<seq<string>>, weights: WeightMap, c: real, w: string -> real, sums: seq<real>)
    requires |sums| == |shards| && forall s :: 0 <= s < |shards| ==> WeighedBy(shards[s], weights, c, w) && sums[s] == Sum(w, shards[s])
    ensures TotalsOf(shards, weights, c) == sums
  {
    forall s | 0 <= s < |shards| ensures TotalsOf(shards, weights, c)[s] == sums[s] {
      TotalIsSum(shards[s], weights, c, w);
    }
  }

  lemma ExtremesUnique(sums: seq<real>, max: real, min: real)
    requires Extremes(sums, max, min)
    ensures sums != [] && Max(sums) == max && Min(sums) == min
  {
  }

  lemma QuotientTimes(max: real, min: real)
    requires min != 0.0
    ensures (max / min) * min == max
  {
  }

  lemma RatioByTotals(shards: seq<seq<string>>, weights: WeightMap, c: real, max: real, min: real)
    requires shards != [] && Max(TotalsOf(shards, weights, c)) == max && Min(TotalsOf(shards, weights, c)) == min
    ensures ImbalanceRatio(shards, weights, c) ==
      if min == 0.0 then (if max == 0.0 then Finite(1.0) else Infinite) else Finite(max / min)
  {
  }

  ghost predicate IsRatio(ratio: Ratio, max: real, min: real) {
    if min == 0.0 then ratio == (if max == 0.0 then Finite(1.0) else Infinite)
    else ratio.Finite? && ratio.value * min == max
  }

  lemma QuotientIsRatio(max: real, min: real)
    requires min != 0.0
    ensures IsRatio(Finite(max / min), max, min)
  {
    QuotientTimes(max, min);
  }

  // The heaviest sum over the lightest, infinite for a zero beside something
  // heavier, and one for no shards or nothing but zeros.
  lemma RatioExactly(shards: seq<seq<string>>, weights: WeightMap, c: real, w: string -> real, sums: seq<real>, max: real, min: real)
    requires |sums| == |shards| && forall s :: 0 <= s < |shards| ==> WeighedBy(shards[s], weights, c, w) && sums[s] == Sum(w, shards[s])
    requires shards != [] ==> Extremes(sums, max, min)
    ensures shards == [] ==> ImbalanceRatio(shards, weights, c) == Finite(1.0)
    ensures shards != [] ==> IsRatio(ImbalanceRatio(shards, weights, c), max, min)
  {
    if shards != [] {
      SumsAreTotals(shards, weights, c, w, sums);
      ExtremesUnique(sums, max, min);
      RatioByTotals(shards, weights, c, max, min);
      if min != 0.0 {
        QuotientIsRatio(max, min);
      }
    }
  }

  lemma CancelFactor(r: real, x: real, y: real)
    requires r > 0.0 && r * x <= r * y
    ensures x <= y
  {
  }

  lemma BoundAsProducts(n: nat, x: real, makespan: real)
    requires n > 0 && makespan >= 0.0 && WithinBound(n, x, makespan)
    ensures GrahamBound(n, x, makespan)
  {
    TimesIsProduct(n, x);
    TimesIsProduct(n, makespan);
    var r := n as real;
    assert (4.0 * r - 1.0) * makespan == 4.0 * (r * makespan) - makespan;
    assert r * (3.0 * x) == 3.0 * (r * x) && r * (4.0 * makespan) == 4.0 * (r * makespan);
    CancelFactor(r, 3.0 * x, 4.0 * makespan);
  }

  // ---- exact cover, whatever the order of the listing ----

  lemma PathsPerShardIsMapped(groups: seq<seq<Tuple>>)
    ensures PathsPerShard(groups) == MappedGroups(PathOf, groups)
  {
    forall s | 0 <= s < |groups| ensures PathsPerShard(groups)[s] == MappedGroups(PathOf, groups)[s] {
      assert PathsOf(groups[s]) == Mapped(PathOf, groups[s]);
    }
  }

  // Every file is in exactly as many places as it was listed.
  lemma PartitionCovers(files: seq<string>, weights: WeightMap, n: nat, override: Option<real>)
    requires n > 0 && weights.Valid()
    ensures multiset(Flatten(ShardsOf(files, weights, n, override))) == multiset(files)
  {
    var fallback := EffectiveFallback(weights, override);
    var f := ToTuple(weights, fallback);
    var ts := SortedTuples(files, weights, fallback);
    var groups := Deal(ts, n).shards;
    SortedTuplesFacts(files, weights, fallback);
    DealConserves(ts, n);
    PathsPerShardIsMapped(groups);
    FlattenMapped(PathOf, groups);
    MapPermuted(PathOf, Flatten(groups), Mapped(f, files));
    assert Mapped(PathOf, Mapped(f, files)) == files;
  }

  lemma PartitionIgnoresListingOrder(files: seq<string>, files': seq<string>, weights: WeightMap, n: nat, override: Option<real>)
    requires n > 0 && weights.Valid() && multiset(files) == multiset(files')
    ensures ShardsOf(files, weights, n, override) == ShardsOf(files', weights, n, override)
  {
    var fallback := EffectiveFallback(weights, override);
    var f := ToTuple(weights, fallback);
    var a, b := TuplesOf(files, weights, fallback), TuplesOf(files', weights, fallback);
    BeforeIsTotal();
    MapPermuted(f, files, files');
    assert a == Mapped(f, files) && b == Mapped(f, files');
    SortIgnoresOrder(Before, a, b);
  }

  lemma PrintedIsShard(listing: seq<string>, files: seq<string>, weights: WeightMap, n: nat, i: nat)
    requires i < n && weights.Valid() && multiset(listing) == multiset(files)
    ensures ShardsOf(listing, weights, n, None)[i] == ShardsOf(files, weights, n, None)[i]
  {
    PartitionIgnoresListingOrder(listing, files, weights, n, None);
  }

  lemma SameShards(a: seq<seq<string>>, b: seq<seq<string>>)
    requires |a| == |b| && forall i :: 0 <= i < |a| ==> a[i] == b[i]
    ensures a == b
  {
  }

  // Independent invocations, one per shard, each with its own listing order:
  // together they print every file exactly as often as it was listed.
  lemma DistributedExactCover(listings: seq<seq<string>>, files: seq<string>, weights: WeightMap, printed: seq<seq<string>>)
    requires |listings| > 0 && weights.Valid()
    requires forall i :: 0 <= i < |listings| ==> multiset(listings[i]) == multiset(files)
    requires |printed| == |listings|
    requires forall i :: 0 <= i < |listings| ==> printed[i] == ShardsOf(listings[i], weights, |listings|, None)[i]
    ensures multiset(Flatten(printed)) == multiset(files)
  {
    var n := |listings|;
    forall i | 0 <= i < n ensures printed[i] == ShardsOf(files, weights, n, None)[i] {
      PrintedIsShard(listings[i], files, weights, n, i);
    }
    SameShards(printed, ShardsOf(files, weights, n, None));
    PartitionCovers(files, weights, n, None);
  }

  // Each shard lists its files in the order of the global sort: heaviest first.
  lemma {:induction false} ShardSorted(ts: seq<Tuple>, n: nat, s: nat)
    requires s < n && Sorted(Before, ts)
    ensures Sorted(Before, Deal(ts, n).shards[s])
  {
    if ts != [] {
      var k := |ts| - 1;
      ShardSorted(ts[..k], n, s);
      DealConserves(ts[..k], n);
      var shard := Deal(ts[..k], n).shards[s];
      forall i | 0 <= i < |shard| ensures Before(shard[i], ts[k]) {
        GroupMember(ts[..k], n, Deal(ts[..k], n).shards, s, i);
      }
    }
  }

  lemma ShardsHeaviestFirst(files: seq<string>, weights: WeightMap, n: nat, override: Option<real>, s: nat, i: nat, j: nat)
    requires s < n && weights.Valid() && i < j < |ShardsOf(files, weights, n, override)[s]|
    ensures var shard := ShardsOf(files, weights, n, override)[s];
      var fallback := EffectiveFallback(weights, override);
      var a, b := weights.Get(shard[i], fallback), weights.Get(shard[j], fallback);
      a > b || (a == b && StringLeq(shard[i], shard[j]))
  {
    var fallback := EffectiveFallback(weights, override);
    var ts := SortedTuples(files, weights, fallback);
    SortedTuplesFacts(files, weights, fallback);
    ShardSorted(ts, n, s);
    ShardHonest(ts, n, s, weights, fallback);
    var shard := Deal(ts, n).shards[s];
    assert Before(shard[i], shard[j]);
  }

  // The same on the weights as recorded, or the fallback.
  lemma HeaviestFirstByWeight(files: seq<string>, weights: WeightMap, n: nat, override: Option<real>, c: real, w: string -> real,
                              s: nat, i: nat, j: nat)
    requires s < n && weights.Valid() && weights.NonNegative() && i < j < |ShardsOf(files, weights, n, override)[s]|
    requires IsFallback(weights, override, c) && WeighedBy(files, weights, c, w)
    ensures var shard := ShardsOf(files, weights, n, override)[s];
      w(shard[i]) > w(shard[j]) || (w(shard[i]) == w(shard[j]) && StringLeq(shard[i], shard[j]))
  {
    FallbackUnique(weights, override, c);
    ShardsHeaviestFirst(files, weights, n, override, s, i, j);
    PartitionCovers(files, weights, n, override);
    GroupWeighedBy(files, ShardsOf(files, weights, n, override), s, weights, c, w);
  }
}
