// scripts/sharding.ts: weights, the greedy partition and the imbalance ratio.
module Sharding {
  import opened Wrappers
  import opened Sorting

  // A JavaScript Map keeps insertion order: the keys in that order, and their values.
  datatype WeightMap = WeightMap(order: seq<string>, at: map<string, real>) {
    ghost predicate Valid() {
      && (forall i, j :: 0 <= i < j < |order| ==> order[i] != order[j])
      && (forall k :: k in order <==> k in at)
    }

    ghost predicate NonNegative() {
      forall k :: k in at ==> at[k] >= 0.0
    }

    function Values(): seq<real>
      requires Valid()
    {
      seq(|order|, i requires 0 <= i < |order| => assert order[i] in order; at[order[i]])
    }

    function Get(path: string, fallback: real): real {
      if path in at then at[path] else fallback
    }
  }

  // ---- loadWeights: a parsed top-level object, key by key ----

  datatype Json = Number(n: real) | NotANumber

  datatype WeightsError = BadValue(key: string)

  method LoadWeights(entries: seq<(string, Json)>) returns (r: Result<WeightMap, WeightsError>)
    requires forall i, j :: 0 <= i < j < |entries| ==> entries[i].0 != entries[j].0
    ensures r.Ok? <==> forall i :: 0 <= i < |entries| ==> entries[i].1.Number? && entries[i].1.n >= 0.0
    ensures r.Ok? ==> r.value.Valid() && r.value.NonNegative()
    ensures r.Ok? ==> |r.value.order| == |entries|
    ensures r.Ok? ==> forall i :: 0 <= i < |entries| ==>
      r.value.order[i] == entries[i].0 && entries[i].0 in r.value.at
      && r.value.at[entries[i].0] == entries[i].1.n
    ensures r.Err? ==> exists i ::
      && 0 <= i < |entries| && entries[i].0 == r.error.key && !(entries[i].1.Number? && entries[i].1.n >= 0.0)
      && forall j :: 0 <= j < i ==> entries[j].1.Number? && entries[j].1.n >= 0.0
  {
    var out := WeightMap([], map[]);
    for i := 0 to |entries|
      invariant out.Valid() && out.NonNegative()
      invariant |out.order| == i
      invariant forall j :: 0 <= j < i ==> entries[j].1.Number? && entries[j].1.n >= 0.0
      invariant forall j :: 0 <= j < i ==>
        out.order[j] == entries[j].0 && entries[j].0 in out.at && out.at[entries[j].0] == entries[j].1.n
    {
      if !entries[i].1.Number? || entries[i].1.n < 0.0 {
        return Err(BadValue(entries[i].0));
      }
      assert entries[i].0 !in out.order;
      out := WeightMap(out.order + [entries[i].0], out.at[entries[i].0 := entries[i].1.n]);
    }
    return Ok(out);
  }

  // ---- computeMedian ----

  predicate RealLeq(a: real, b: real) {
    a <= b
  }

  function ComputeMedian(values: seq<real>): real {
    if values == [] then 0.0 else MiddleOf(Sort(RealLeq, values))
  }

  function MiddleOf(sorted: seq<real>): real
    requires sorted != []
  {
    var mid := |sorted| / 2;
    if |sorted| % 2 == 0 then (sorted[mid - 1] + sorted[mid]) / 2.0 else sorted[mid]
  }

  // ---- partition ----

  datatype Tuple = Tuple(path: string, weight: real)

  // The comparator: weight descending, then path ascending.
  predicate Before(a: Tuple, b: Tuple) {
    a.weight > b.weight || (a.weight == b.weight && StringLeq(a.path, b.path))
  }

  datatype PartitionError = BadShardCount(n: int) | BadFallback(weight: real)

  function EffectiveFallback(weights: WeightMap, override: Option<real>): real
    requires weights.Valid()
  {
    match override
    case Some(w) => w
    case None =>
      var median := ComputeMedian(weights.Values());
      if median == 0.0 then 1.0 else median
  }

  function TuplesOf(files: seq<string>, weights: WeightMap, fallback: real): (ts: seq<Tuple>)
    ensures |ts| == |files|
    ensures forall i :: 0 <= i < |files| ==> ts[i] == Tuple(files[i], weights.Get(files[i], fallback))
  {
    seq(|files|, i requires 0 <= i < |files| => Tuple(files[i], weights.Get(files[i], fallback)))
  }

  // The lowest index holding the minimum.
  ghost predicate IsFirstMin(totals: seq<real>, m: nat) {
    && m < |totals|
    && (forall i :: 0 <= i < |totals| ==> totals[m] <= totals[i])
    && (forall i :: 0 <= i < m ==> totals[m] < totals[i])
  }

  ghost function FirstMin(totals: seq<real>): (m: nat)
    requires totals != []
    ensures IsFirstMin(totals, m)
  {
    if |totals| == 1 then 0
    else
      var k := |totals| - 1;
      var m := FirstMin(totals[..k]);
      if totals[k] < totals[m] then k else m
  }

  // The running totals and the shards built so far.
  datatype Bins = Bins(totals: seq<real>, shards: seq<seq<Tuple>>)

  // Longest processing time first: each tuple goes to the least loaded shard.
  ghost function Deal(ts: seq<Tuple>, n: nat): (b: Bins)
    requires n > 0
    ensures |b.totals| == |b.shards| == n
  {
    if ts == [] then Bins(seq(n, _ => 0.0), seq(n, _ => []))
    else Push(Deal(ts[..|ts| - 1], n), ts[|ts| - 1])
  }

  ghost function Push(b: Bins, t: Tuple): Bins
    requires |b.totals| == |b.shards| > 0
  {
    var m := FirstMin(b.totals);
    Bins(b.totals[m := b.totals[m] + t.weight], b.shards[m := b.shards[m] + [t]])
  }

  ghost function SortedTuples(files: seq<string>, weights: WeightMap, fallback: real): (ts: seq<Tuple>)
    ensures |ts| == |files|
  {
    Sort(Before, TuplesOf(files, weights, fallback))
  }

  function PathsOf(ts: seq<Tuple>): (ps: seq<string>)
    ensures |ps| == |ts|
    ensures forall i :: 0 <= i < |ts| ==> ps[i] == ts[i].path
  {
    seq(|ts|, i requires 0 <= i < |ts| => ts[i].path)
  }

  function PathsPerShard(shards: seq<seq<Tuple>>): (ps: seq<seq<string>>)
    ensures |ps| == |shards|
    ensures forall s :: 0 <= s < |shards| ==> ps[s] == PathsOf(shards[s])
  {
    seq(|shards|, s requires 0 <= s < |shards| => PathsOf(shards[s]))
  }

  // What partition returns on a valid call.
  ghost function ShardsOf(files: seq<string>, weights: WeightMap, n: nat, override: Option<real>): (shards: seq<seq<string>>)
    requires n > 0 && weights.Valid()
    ensures |shards| == n
  {
    PathsPerShard(Deal(SortedTuples(files, weights, EffectiveFallback(weights, override)), n).shards)
  }

  lemma FirstMinUnique(totals: seq<real>, m: nat)
    requires IsFirstMin(totals, m)
    ensures m == FirstMin(totals)
  {
    var f := FirstMin(totals);
    assert totals[m] <= totals[f] && totals[f] <= totals[m];
  }

  // The inner loop: lowest index of the smallest running total.
  method ArgMin(totals: array<real>) returns (minIdx: nat)
    requires totals.Length > 0
    ensures IsFirstMin(totals[..], minIdx)
  {
    minIdx := 0;
    for i := 1 to totals.Length
      invariant minIdx < i
      invariant forall j :: 0 <= j < i ==> totals[minIdx] <= totals[j]
      invariant forall j :: 0 <= j < minIdx ==> totals[minIdx] < totals[j]
    {
      if totals[i] < totals[minIdx] {
        minIdx := i;
      }
    }
  }

  method Partition(files: seq<string>, weights: WeightMap, n: int, override: Option<real>)
    returns (r: Result<seq<seq<string>>, PartitionError>)
    requires weights.Valid()
    ensures n <= 0 ==> r == Err(BadShardCount(n))
    ensures n > 0 && files != [] && override.Some? && override.value < 0.0 ==> r == Err(BadFallback(override.value))
    ensures n > 0 && (files == [] || override.None? || override.value >= 0.0) ==>
      r == Ok(ShardsOf(files, weights, n, override))
  {
    if n <= 0 {
      return Err(BadShardCount(n));
    }
    var shards := new seq<string>[n](_ => []);
    if files == [] {
      assert shards[..] == ShardsOf(files, weights, n, override);
      return Ok(shards[..]);
    }
    if override.Some? && override.value < 0.0 {
      return Err(BadFallback(override.value));
    }
    var fallback := EffectiveFallback(weights, override);
    var tuples := Sort(Before, TuplesOf(files, weights, fallback));
    DealOut(tuples, shards);
    return Ok(shards[..]);
  }

  // The assignment loop over the running per-shard totals.
  method DealOut(tuples: seq<Tuple>, shards: array<seq<string>>)
    requires shards.Length > 0 && forall s :: 0 <= s < shards.Length ==> shards[s] == []
    modifies shards
    ensures shards[..] == PathsPerShard(Deal(tuples, shards.Length).shards)
  {
    var n := shards.Length;
    var totals := new real[n](_ => 0.0);
    assert tuples[..0] == [];
    for k := 0 to |tuples|
      invariant totals[..] == Deal(tuples[..k], n).totals
      invariant shards[..] == PathsPerShard(Deal(tuples[..k], n).shards)
    {
      var t := tuples[k];
      var minIdx := ArgMin(totals);
      DealNext(tuples, k, n, minIdx);
      shards[minIdx] := shards[minIdx] + [t.path];
      totals[minIdx] := totals[minIdx] + t.weight;
    }
    assert tuples[..|tuples|] == tuples;
  }

  lemma DealNext(ts: seq<Tuple>, k: nat, n: nat, m: nat)
    requires n > 0 && k < |ts| && IsFirstMin(Deal(ts[..k], n).totals, m)
    ensures var b, b' := Deal(ts[..k], n), Deal(ts[..k + 1], n);
      && b'.totals == b.totals[m := b.totals[m] + ts[k].weight]
      && b'.shards == b.shards[m := b.shards[m] + [ts[k]]]
      && PathsPerShard(b'.shards) == PathsPerShard(b.shards)[m := PathsOf(b.shards[m]) + [ts[k].path]]
  {
    assert ts[..k + 1][..k] == ts[..k];
    var b := Deal(ts[..k], n);
    FirstMinUnique(b.totals, m);
    assert PathsOf(b.shards[m] + [ts[k]]) == PathsOf(b.shards[m]) + [ts[k].path];
  }

  // ---- imbalanceRatio ----

  datatype Ratio = Finite(value: real) | Infinite

  function TotalOf(shard: seq<string>, weights: WeightMap, fallback: real): real {
    if shard == [] then 0.0
    else
      var k := |shard| - 1;
      TotalOf(shard[..k], weights, fallback) + weights.Get(shard[k], fallback)
  }

  function Max(xs: seq<real>): (m: real)
    requires xs != []
    ensures m in xs && forall x :: x in xs ==> x <= m
  {
    if |xs| == 1 then xs[0]
    else
      assert xs == [xs[0]] + xs[1..];
      var m := Max(xs[1..]);
      if xs[0] > m then xs[0] else m
  }

  function Min(xs: seq<real>): (m: real)
    requires xs != []
    ensures m in xs && forall x :: x in xs ==> m <= x
  {
    if |xs| == 1 then xs[0]
    else
      assert xs == [xs[0]] + xs[1..];
      var m := Min(xs[1..]);
      if xs[0] < m then xs[0] else m
  }

  function TotalsOf(shards: seq<seq<string>>, weights: WeightMap, fallback: real): (ts: seq<real>)
    ensures |ts| == |shards|
    ensures forall i :: 0 <= i < |shards| ==> ts[i] == TotalOf(shards[i], weights, fallback)
  {
    seq(|shards|, i requires 0 <= i < |shards| => TotalOf(shards[i], weights, fallback))
  }

  function ImbalanceRatio(shards: seq<seq<string>>, weights: WeightMap, fallback: real): Ratio {
    if shards == [] then Finite(1.0)
    else
      var totals := TotalsOf(shards, weights, fallback);
      var max, min := Max(totals), Min(totals);
      if min == 0.0 then (if max == 0.0 then Finite(1.0) else Infinite)
      else Finite(max / min)
  }
}
