// Graham's factor 4/3 - 1/(3n) is attained for every number of shards from two
// on: two files each of weight 2n-1, 2n-2, ..., n+1, and three of weight n.
module ShardingTight {
  import opened Wrappers
  import opened Collections
  import opened Sorting
  import opened Sums
  import opened Sharding
  import opened ShardingBound
  import opened ShardingResults

  // The i-th heaviest of the 2n + 1 weights.
  function Hard(n: nat, i: nat): int {
    if i < 2 * n then 2 * n - 1 - i / 2 else n
  }

  ghost predicate HardTuples(ts: seq<Tuple>, n: nat) {
    |ts| == 2 * n + 1 && forall i :: 0 <= i < |ts| ==> ts[i].weight == Hard(n, i) as real
  }

  // ---- what the greedy partition makes of them ----

  // Shards 0 and 1, 2 and 3, ... hold equal weights after the first n tuples; of
  // an odd number of shards the last has no twin.
  function Twin(n: nat, s: nat): nat
    requires s < n
  {
    if n % 2 == 1 && s == n - 1 then s else if s % 2 == 0 then s + 1 else s - 1
  }

  // The second tuple shard s receives.
  function Second(n: nat, s: nat): int
    requires s < n
  {
    2 * n - 1 - Twin(n, s)
  }

  // What shard s carries after k tuples.
  function Load(n: nat, k: nat, s: nat): int
    requires s < n
  {
    if k <= n then (if s < k then Hard(n, s) else 0)
    else if Second(n, s) < k then 3 * n - 1
    else Hard(n, s)
  }

  // The shard the k-th tuple goes to.
  function SeatOf(n: nat, k: nat): nat
    requires k < 2 * n
  {
    if k < n then k else Twin(n, 2 * n - 1 - k)
  }

  // Twins carry the same, the other shards before them more.
  lemma TwinLoads(n: nat, s: nat, m: nat)
    requires s < n && m < n
    ensures Twin(n, s) < n && Twin(n, Twin(n, s)) == s
    ensures Hard(n, Twin(n, s)) == Hard(n, s)
    ensures s < m ==> Hard(n, s) > Hard(n, m) || (Hard(n, s) == Hard(n, m) && Twin(n, s) == m)
  {
  }

  // From the n-th tuple on, a tuple and the one it joins weigh 3n - 1 together.
  lemma SecondLoad(n: nat, k: nat)
    requires n <= k < 2 * n
    ensures SeatOf(n, k) < n && Second(n, SeatOf(n, k)) == k
    ensures Hard(n, SeatOf(n, k)) + Hard(n, k) == 3 * n - 1
  {
    TwinLoads(n, 2 * n - 1 - k, 0);
  }

  // Shards still without a second tuple carry at least what the next to get one does.
  lemma OpenLoad(n: nat, k: nat, s: nat)
    requires n <= k < 2 * n && s < n && Second(n, s) >= k && SeatOf(n, k) < n
    ensures Hard(n, SeatOf(n, k)) <= Hard(n, s)
    ensures s < SeatOf(n, k) ==> Hard(n, SeatOf(n, k)) < Hard(n, s)
  {
    var t, m := Twin(n, s), 2 * n - 1 - k;
    assert t <= m;
    TwinLoads(n, s, 0);
    TwinLoads(n, m, 0);
    TwinLoads(n, t, m);
    TwinLoads(n, s, SeatOf(n, k));
  }

  lemma SeatIsLightest(n: nat, k: nat, s: nat)
    requires n >= 2 && k < 2 * n && s < n
    ensures SeatOf(n, k) < n
    ensures Load(n, k, SeatOf(n, k)) <= Load(n, k, s)
    ensures s < SeatOf(n, k) ==> Load(n, k, SeatOf(n, k)) < Load(n, k, s)
  {
    if k >= n {
      SecondLoad(n, k);
      if Second(n, s) >= k {
        OpenLoad(n, k, s);
      }
    }
  }

  lemma NextLoad(n: nat, k: nat, s: nat)
    requires n >= 2 && k < 2 * n && s < n
    ensures Load(n, k + 1, s) == Load(n, k, s) + if s == SeatOf(n, k) then Hard(n, k) else 0
  {
    TwinLoads(n, s, 0);
    if k >= n {
      SecondLoad(n, k);
      TwinLoads(n, 2 * n - 1 - k, 0);
    }
  }

  ghost predicate Loaded(totals: seq<real>, n: nat, k: nat) {
    |totals| == n && forall s :: 0 <= s < n ==> totals[s] == Load(n, k, s) as real
  }

  lemma SeatFound(totals: seq<real>, n: nat, k: nat)
    requires n >= 2 && k < 2 * n && Loaded(totals, n, k)
    ensures IsFirstMin(totals, SeatOf(n, k))
  {
    forall s | 0 <= s < n
      ensures SeatOf(n, k) < n && totals[SeatOf(n, k)] <= totals[s]
      ensures s < SeatOf(n, k) ==> totals[SeatOf(n, k)] < totals[s]
    {
      SeatIsLightest(n, k, s);
    }
    SeatIsLightest(n, k, 0);
  }

  lemma LoadedNext(totals: seq<real>, n: nat, k: nat)
    requires n >= 2 && k < 2 * n && Loaded(totals, n, k) && SeatOf(n, k) < n
    ensures Loaded(totals[SeatOf(n, k) := totals[SeatOf(n, k)] + Hard(n, k) as real], n, k + 1)
  {
    var m := SeatOf(n, k);
    var after := totals[m := totals[m] + Hard(n, k) as real];
    forall s | 0 <= s < n ensures after[s] == Load(n, k + 1, s) as real {
      NextLoad(n, k, s);
    }
  }

  lemma HardStep(ts: seq<Tuple>, n: nat, k: nat, totals: seq<real>)
    requires n >= 2 && k < 2 * n && HardTuples(ts, n)
    requires totals == Deal(ts[..k], n).totals && Loaded(totals, n, k)
    ensures Loaded(Deal(ts[..k + 1], n).totals, n, k + 1)
  {
    SeatFound(totals, n, k);
    DealNext(ts, k, n, SeatOf(n, k));
    LoadedNext(totals, n, k);
  }

  lemma NothingLoaded(n: nat)
    requires n >= 2
    ensures Loaded(Deal([], n).totals, n, 0)
  {
  }

  lemma {:induction false} HardLoads(ts: seq<Tuple>, n: nat, k: nat)
    requires n >= 2 && k <= 2 * n && HardTuples(ts, n)
    ensures Loaded(Deal(ts[..k], n).totals, n, k)
  {
    if k == 0 {
      NothingLoaded(n);
      assert ts[..k] == [];
    } else {
      var j := k - 1;
      HardLoads(ts, n, j);
      HardStep(ts, n, j, Deal(ts[..j], n).totals);
    }
  }

  lemma AllEven(totals: seq<real>, n: nat)
    requires n >= 2 && Loaded(totals, n, 2 * n)
    ensures IsFirstMin(totals, 0) && totals[0] == (3 * n - 1) as real
  {
    forall s | 0 <= s < n ensures totals[s] == (3 * n - 1) as real {
      assert Load(n, 2 * n, s) == 3 * n - 1;
    }
  }

  lemma LastPush(ts: seq<Tuple>, n: nat, k: nat)
    requires n >= 2 && k == 2 * n && |ts| == k + 1 && Loaded(Deal(ts[..k], n).totals, n, k)
    ensures Deal(ts, n).totals[0] == (3 * n - 1) as real + ts[k].weight
  {
    AllEven(Deal(ts[..k], n).totals, n);
    DealNext(ts, k, n, 0);
    assert ts[..k + 1] == ts;
  }

  // After 2n tuples all shards carry 3n - 1; the last tuple makes it 4n - 1.
  lemma GreedyOnHard(ts: seq<Tuple>, n: nat)
    requires n >= 2 && HardTuples(ts, n)
    ensures Deal(ts, n).totals[0] == (4 * n - 1) as real
  {
    HardLoads(ts, n, 2 * n);
    LastPush(ts, n, 2 * n);
  }

  // ---- sorting puts files of these weights in this order ----

  predicate RealGeq(a: real, b: real) {
    a >= b
  }

  function HardWeights(n: nat): (r: seq<real>)
    ensures |r| == 2 * n + 1 && forall i :: 0 <= i < |r| ==> r[i] == Hard(n, i) as real
  {
    seq(2 * n + 1, i requires 0 <= i < 2 * n + 1 => Hard(n, i) as real)
  }

  ghost predicate HardFiles(files: seq<string>, weights: WeightMap, fallback: real, n: nat) {
    |files| == 2 * n + 1 && forall i :: 0 <= i < |files| ==> weights.Get(files[i], fallback) == Hard(n, i) as real
  }

  lemma HardDescends(n: nat)
    ensures Sorted(RealGeq, HardWeights(n))
  {
    forall i, j | 0 <= i < j < 2 * n + 1 ensures Hard(n, i) >= Hard(n, j) {
    }
  }

  lemma WeightsDescend(ts: seq<Tuple>)
    requires HeaviestFirst(ts)
    ensures Sorted(RealGeq, Mapped(Weight, ts))
  {
  }

  lemma RealGeqTotal(xs: seq<real>)
    ensures TotalPreorder(RealGeq) && TellsApart(RealGeq, xs)
  {
  }

  lemma HardSorted(files: seq<string>, weights: WeightMap, fallback: real, n: nat)
    requires HardFiles(files, weights, fallback, n)
    ensures HardTuples(SortedTuples(files, weights, fallback), n)
  {
    var ts := SortedTuples(files, weights, fallback);
    var unsorted := Mapped(ToTuple(weights, fallback), files);
    SortedTuplesFacts(files, weights, fallback);
    MapPermuted(Weight, ts, unsorted);
    assert Mapped(Weight, unsorted) == HardWeights(n);
    HardDescends(n);
    WeightsDescend(ts);
    RealGeqTotal(Mapped(Weight, ts));
    SortedUnique(RealGeq, Mapped(Weight, ts), HardWeights(n));
    forall i | 0 <= i < |ts| ensures ts[i].weight == Hard(n, i) as real {
      assert Mapped(Weight, ts)[i] == Weight(ts[i]);
    }
  }

  // ---- the rival: the i-th with the i-th from the end, the three lightest together ----

  function Pairs(files: seq<string>, n: nat): (r: seq<seq<string>>)
    requires n >= 2 && |files| == 2 * n + 1
    ensures |r| == n - 1 && forall s :: 0 <= s < n - 1 ==> r[s] == [files[s], files[2 * n - 3 - s]]
  {
    seq(n - 1, s requires 0 <= s < n - 1 => [files[s], files[2 * n - 3 - s]])
  }

  function RivalOf(files: seq<string>, n: nat): seq<seq<string>>
    requires n >= 2 && |files| == 2 * n + 1
  {
    Pairs(files, n) + [files[2 * n - 2..]]
  }

  lemma FirstOfSlice(files: seq<string>, lo: nat, hi: nat)
    requires lo < hi <= |files|
    ensures multiset(files[lo..hi]) == multiset{files[lo]} + multiset(files[lo + 1..hi])
  {
    assert files[lo..hi] == [files[lo]] + files[lo + 1..hi];
  }

  lemma LastOfSlice(files: seq<string>, s: nat)
    requires s < |files|
    ensures multiset(files[..s + 1]) == multiset(files[..s]) + multiset{files[s]}
  {
    assert files[..s + 1] == files[..s] + [files[s]];
  }

  lemma OneMorePair(groups: seq<seq<string>>, s: nat, x: string, y: string)
    requires s < |groups| && groups[s] == [x, y]
    ensures multiset(Flatten(groups[..s + 1])) == multiset(Flatten(groups[..s])) + multiset{x} + multiset{y}
  {
    assert groups[..s + 1][..s] == groups[..s];
    assert multiset([x, y]) == multiset{x} + multiset{y};
  }

  lemma Regrouped(a: multiset<string>, b: multiset<string>, x: string, y: string)
    ensures a + b + multiset{x} + multiset{y} == (a + multiset{x}) + (multiset{y} + b)
  {
  }

  ghost predicate CoveredBy(files: seq<string>, groups: seq<seq<string>>, s: nat, lo: nat, hi: nat)
    requires s <= |groups| && s <= |files| && lo <= hi <= |files|
  {
    multiset(Flatten(groups[..s])) == multiset(files[..s]) + multiset(files[lo..hi])
  }

  lemma CoversOneMore(files: seq<string>, groups: seq<seq<string>>, s: nat, lo: nat, hi: nat)
    requires s < |groups| && s < |files| && lo < hi <= |files| && groups[s] == [files[s], files[lo]]
    requires CoveredBy(files, groups, s, lo + 1, hi)
    ensures CoveredBy(files, groups, s + 1, lo, hi)
  {
    OneMorePair(groups, s, files[s], files[lo]);
    LastOfSlice(files, s);
    FirstOfSlice(files, lo, hi);
    Regrouped(multiset(files[..s]), multiset(files[lo + 1..hi]), files[s], files[lo]);
  }

  lemma CoversNone(files: seq<string>, groups: seq<seq<string>>, hi: nat)
    requires hi <= |files|
    ensures CoveredBy(files, groups, 0, hi, hi)
  {
    assert files[hi..hi] == [] && files[..0] == [] && groups[..0] == [];
  }

  // The s-th group pairs the s-th file with the s-th before the last three.
  ghost predicate PairedAt(files: seq<string>, groups: seq<seq<string>>, hi: nat, s: nat) {
    s < |groups| && s < hi <= |files| && groups[s] == [files[s], files[hi - 1 - s]]
  }

  lemma PairAt(files: seq<string>, n: nat, s: nat)
    requires n >= 2 && |files| == 2 * n + 1 && s < n - 1
    ensures PairedAt(files, Pairs(files, n), 2 * n - 2, s)
  {
  }

  // The first s pairs take the first s files and the s files before the last three.
  lemma {:induction false} PairsCover(files: seq<string>, groups: seq<seq<string>>, s: nat, lo: nat, hi: nat)
    requires s <= |groups| && s <= hi <= |files| && lo == hi - s
    requires forall j: nat {:trigger PairedAt(files, groups, hi, j)} :: j < s ==> PairedAt(files, groups, hi, j)
    ensures CoveredBy(files, groups, s, lo, hi)
  {
    if s == 0 {
      CoversNone(files, groups, hi);
    } else {
      assert PairedAt(files, groups, hi, s - 1);
      PairsCover(files, groups, s - 1, lo + 1, hi);
      CoversOneMore(files, groups, s - 1, lo, hi);
    }
  }

  lemma FlattenLast(groups: seq<seq<string>>, last: seq<string>)
    ensures multiset(Flatten(groups + [last])) == multiset(Flatten(groups)) + multiset(last)
  {
    assert (groups + [last])[..|groups|] == groups;
  }

  lemma RivalCovers(files: seq<string>, n: nat, cut: nat, rest: nat)
    requires n >= 2 && |files| == 2 * n + 1 && cut == n - 1 && rest == 2 * n - 2
    ensures multiset(Flatten(Pairs(files, n) + [files[rest..]])) == multiset(files)
  {
    forall s: nat | s < cut ensures PairedAt(files, Pairs(files, n), rest, s) {
      PairAt(files, n, s);
    }
    PairsCover(files, Pairs(files, n), cut, cut, rest);
    assert Pairs(files, n)[..cut] == Pairs(files, n);
    FlattenLast(Pairs(files, n), files[rest..]);
    ThreeParts(files, cut, rest);
  }

  lemma TotalOfTwo(x: string, y: string, weights: WeightMap, fallback: real)
    ensures TotalOf([x, y], weights, fallback) == weights.Get(x, fallback) + weights.Get(y, fallback)
  {
    assert [x, y][..1] == [x] && [x][..0] == [];
    assert TotalOf([x], weights, fallback) == weights.Get(x, fallback);
  }

  lemma TotalOfThree(x: string, y: string, z: string, weights: WeightMap, fallback: real)
    ensures TotalOf([x, y, z], weights, fallback)
      == weights.Get(x, fallback) + weights.Get(y, fallback) + weights.Get(z, fallback)
  {
    TotalOfTwo(x, y, weights, fallback);
    assert [x, y, z][..2] == [x, y];
  }

  lemma RivalIsEven(files: seq<string>, weights: WeightMap, fallback: real, n: nat, s: nat)
    requires n >= 2 && HardFiles(files, weights, fallback, n) && s < n
    ensures TotalOf(RivalOf(files, n)[s], weights, fallback) == (3 * n) as real
  {
    if s < n - 1 {
      TotalOfTwo(files[s], files[2 * n - 3 - s], weights, fallback);
      assert Hard(n, s) + Hard(n, 2 * n - 3 - s) == 3 * n;
    } else {
      TotalOfThree(files[2 * n - 2], files[2 * n - 1], files[2 * n], weights, fallback);
      assert files[2 * n - 2..] == [files[2 * n - 2], files[2 * n - 1], files[2 * n]];
      assert Hard(n, 2 * n - 2) == Hard(n, 2 * n - 1) == Hard(n, 2 * n) == n;
    }
  }

  // For any files of these weights, the first shard carries 4n - 1, ...
  lemma HardFilesHeavy(files: seq<string>, weights: WeightMap, n: nat, override: Option<real>, fallback: real)
    requires n >= 2 && weights.Valid() && fallback == EffectiveFallback(weights, override)
    requires HardFiles(files, weights, fallback, n)
    ensures TotalOf(ShardsOf(files, weights, n, override)[0], weights, fallback) == (4 * n - 1) as real
  {
    HardSorted(files, weights, fallback, n);
    GreedyOnHard(SortedTuples(files, weights, fallback), n);
    TotalsRecomputed(files, weights, n, override, 0);
  }

  lemma RivalOfCovers(files: seq<string>, n: nat)
    requires n >= 2 && |files| == 2 * n + 1
    ensures |RivalOf(files, n)| == n && multiset(Flatten(RivalOf(files, n))) == multiset(files)
  {
    var rest := 2 * n - 2;
    RivalCovers(files, n, n - 1, rest);
    assert RivalOf(files, n) == Pairs(files, n) + [files[rest..]];
  }

  // ... where a rival gets by with 3n on every shard.
  lemma RivalTotals(files: seq<string>, weights: WeightMap, fallback: real, n: nat)
    requires n >= 2 && HardFiles(files, weights, fallback, n)
    ensures forall s :: 0 <= s < n ==> TotalOf(RivalOf(files, n)[s], weights, fallback) == (3 * n) as real
  {
    forall s | 0 <= s < n ensures TotalOf(RivalOf(files, n)[s], weights, fallback) == (3 * n) as real {
      RivalIsEven(files, weights, fallback, n, s);
    }
  }

  // ---- there are such files ----

  function Name(i: nat): (s: string)
    ensures |s| == i + 1
  {
    seq(i + 1, _ => 'a')
  }

  function Names(n: nat): (files: seq<string>)
    ensures |files| == 2 * n + 1 && forall i :: 0 <= i < |files| ==> files[i] == Name(i)
  {
    seq(2 * n + 1, i requires 0 <= i < 2 * n + 1 => Name(i))
  }

  function HardMap(n: nat): WeightMap {
    WeightMap(Names(n), map f | f in Names(n) :: (if f == [] then 0 else Hard(n, |f| - 1)) as real)
  }

  lemma NamesDiffer(n: nat, i: nat, j: nat)
    requires i < j < 2 * n + 1
    ensures Names(n)[i] != Names(n)[j]
  {
    assert |Names(n)[i]| == i + 1 && |Names(n)[j]| == j + 1;
  }

  lemma NamedWeight(n: nat, i: nat)
    requires i < 2 * n + 1
    ensures Names(n)[i] in HardMap(n).at && HardMap(n).at[Names(n)[i]] == Hard(n, i) as real
  {
    assert Names(n)[i] in Names(n) && |Names(n)[i]| == i + 1;
  }

  lemma HardMapLoads(n: nat)
    ensures HardMap(n).Valid() && HardMap(n).NonNegative()
  {
    forall i, j | 0 <= i < j < 2 * n + 1 ensures Names(n)[i] != Names(n)[j] {
      NamesDiffer(n, i, j);
    }
    forall f | f in HardMap(n).at ensures HardMap(n).at[f] >= 0.0 {
      var i :| 0 <= i < |Names(n)| && Names(n)[i] == f;
      NamedWeight(n, i);
    }
  }

  lemma HardMapFits(n: nat)
    ensures HardMap(n).Valid() && HardMap(n).NonNegative()
    ensures forall fallback :: HardFiles(Names(n), HardMap(n), fallback, n)
  {
    HardMapLoads(n);
    forall fallback ensures HardFiles(Names(n), HardMap(n), fallback, n) {
      forall i | 0 <= i < 2 * n + 1 ensures HardMap(n).Get(Names(n)[i], fallback) == Hard(n, i) as real {
        NamedWeight(n, i);
      }
    }
  }

  // total is (4/3 - 1/(3n)) times the makespan.
  ghost predicate GrahamEquality(n: nat, total: real, makespan: real) {
    3.0 * ((n as real) * total) == (4.0 * (n as real) - 1.0) * makespan
  }

  lemma EqualityHolds(n: nat, total: real, makespan: real)
    requires total == (4 * n - 1) as real && makespan == (3 * n) as real
    ensures GrahamEquality(n, total, makespan)
  {
    var r := n as real;
    assert total == 4.0 * r - 1.0 && makespan == 3.0 * r;
    assert r * total == total * r;
    assert total * (3.0 * r) == 3.0 * (total * r);
  }

  // The bound of PartitionMakespan is attained for every n from two on: for some
  // weights and files, a shard reaches it against some rival of even totals.
  lemma BoundIsAttained(n: nat) returns (files: seq<string>, weights: WeightMap, rival: seq<seq<string>>, makespan: real)
    requires n >= 2
    ensures weights.Valid() && weights.NonNegative()
    ensures |rival| == n && multiset(Flatten(rival)) == multiset(files)
    ensures var fallback := EffectiveFallback(weights, None);
      && (forall s :: 0 <= s < n ==> TotalOf(rival[s], weights, fallback) == makespan)
      && makespan > 0.0
      && GrahamEquality(n, TotalOf(ShardsOf(files, weights, n, None)[0], weights, fallback), makespan)
  {
    files, weights, makespan := Names(n), HardMap(n), (3 * n) as real;
    var fallback := EffectiveFallback(weights, None);
    HardMapFits(n);
    rival := RivalOf(files, n);
    RivalOfCovers(files, n);
    RivalTotals(files, weights, fallback, n);
    HardFilesHeavy(files, weights, n, None, fallback);
    EqualityHolds(n, TotalOf(ShardsOf(files, weights, n, None)[0], weights, fallback), makespan);
  }
}
