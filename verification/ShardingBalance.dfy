// How even the partition is: each shard exceeds the lightest by at most its
// own last tuple, and equal weights are dealt round-robin.
module ShardingBalance {
  import opened Wrappers
  import opened Sorting
  import opened Sums
  import opened Sharding
  import opened ShardingBound
  import opened ShardingResults

  // A push onto the lightest shard, seen from any two shards.
  lemma PushOntoLightest(b: Bins, t: Tuple, s: nat, j: nat)
    requires |b.totals| == |b.shards| > 0 && s < |b.totals| && j < |b.totals| && t.weight >= 0.0
    ensures var b' := Push(b, t); var m := FirstMin(b.totals);
      && b'.totals[j] >= b.totals[j]
      && (s == m ==> b'.shards[s] == b.shards[s] + [t] && b'.totals[s] - t.weight <= b.totals[j])
      && (s != m ==> b'.shards[s] == b.shards[s] && b'.totals[s] == b.totals[s])
  {
  }

  // What a shard carried before its last push was no more than any total now.
  lemma {:induction false} LastPushOntoLightest(ts: seq<Tuple>, n: nat, s: nat, j: nat)
    requires s < n && j < n && NonNegative(ts) && Deal(ts, n).shards[s] != []
    ensures var b := Deal(ts, n); var last := b.shards[s][|b.shards[s]| - 1];
      last in ts && b.totals[s] - last.weight <= b.totals[j]
  {
    if ts == [] {
      assert false;
    } else {
      var k := |ts| - 1;
      var b := Deal(ts[..k], n);
      PushOntoLightest(b, ts[k], s, j);
      if s != FirstMin(b.totals) {
        LastPushOntoLightest(ts[..k], n, s, j);
      }
    }
  }

  lemma {:induction false} EmptyShardWeighsNothing(ts: seq<Tuple>, n: nat, s: nat)
    requires s < n && Deal(ts, n).shards[s] == []
    ensures Deal(ts, n).totals[s] == 0.0
  {
    TotalsAreSums(ts, n, s);
  }

  lemma {:induction false} TotalsNonNegative(ts: seq<Tuple>, n: nat, s: nat)
    requires s < n && NonNegative(ts)
    ensures Deal(ts, n).totals[s] >= 0.0
  {
    if ts != [] {
      TotalsNonNegative(ts[..|ts| - 1], n, s);
    }
  }

  // Any two shards differ by at most the heaviest weight.
  lemma SpreadAtMostHeaviest(ts: seq<Tuple>, n: nat, heaviest: real, s: nat, j: nat)
    requires s < n && j < n && NonNegative(ts) && heaviest >= 0.0
    requires forall i :: 0 <= i < |ts| ==> ts[i].weight <= heaviest
    ensures Deal(ts, n).totals[s] <= Deal(ts, n).totals[j] + heaviest
  {
    TotalsNonNegative(ts, n, j);
    if Deal(ts, n).shards[s] == [] {
      EmptyShardWeighsNothing(ts, n, s);
    } else {
      LastPushOntoLightest(ts, n, s, j);
    }
  }

  lemma QuotientBound(max: real, min: real, slack: real)
    requires min > 0.0 && min <= max <= min + slack
    ensures 1.0 <= max / min <= 1.0 + slack / min
  {
    var r, q := max / min, slack / min;
    assert min * r == max && min * q == slack;
    assert min * (1.0 + q) == min + min * q;
    CancelFactor(min, r, 1.0 + q);
    CancelFactor(min, 1.0, r);
  }

  lemma DealRatio(ts: seq<Tuple>, n: nat, heaviest: real)
    requires n > 0 && NonNegative(ts) && heaviest >= 0.0
    requires forall i :: 0 <= i < |ts| ==> ts[i].weight <= heaviest
    ensures var totals := Deal(ts, n).totals;
      var max, min := Max(totals), Min(totals);
      && 0.0 <= min <= max <= min + heaviest
  {
    var totals := Deal(ts, n).totals;
    var hi :| 0 <= hi < n && totals[hi] == Max(totals);
    var lo :| 0 <= lo < n && totals[lo] == Min(totals);
    SpreadAtMostHeaviest(ts, n, heaviest, hi, lo);
    TotalsNonNegative(ts, n, lo);
  }

  // The imbalance ratio of a partition whose every shard carries something is
  // finite and at most 1 + heaviest / lightest total.
  lemma RatioBound(files: seq<string>, weights: WeightMap, n: nat, override: Option<real>, heaviest: real)
    requires n > 0 && weights.Valid() && weights.NonNegative() && (override.Some? ==> override.value >= 0.0)
    requires heaviest >= 0.0
    requires forall f :: f in files ==> weights.Get(f, EffectiveFallback(weights, override)) <= heaviest
    ensures var fallback := EffectiveFallback(weights, override);
      var shards := ShardsOf(files, weights, n, override);
      var lightest := Min(TotalsOf(shards, weights, fallback));
      var ratio := ImbalanceRatio(shards, weights, fallback);
      && lightest >= 0.0
      && (lightest > 0.0 ==> ratio.Finite? && 1.0 <= ratio.value <= 1.0 + heaviest / lightest)
      && (ratio.Infinite? ==> lightest == 0.0)
  {
    var fallback := EffectiveFallback(weights, override);
    var ts := SortedTuples(files, weights, fallback);
    SortedTuplesFacts(files, weights, fallback);
    FallbackNonNegative(weights, override);
    TotalsMatch(files, weights, n, override);
    WeightsWithin(files, weights, fallback, heaviest);
    DealRatio(ts, n, heaviest);
    var totals := Deal(ts, n).totals;
    if Min(totals) > 0.0 {
      QuotientBound(Max(totals), Min(totals), heaviest);
    }
  }

  lemma TotalsMatch(files: seq<string>, weights: WeightMap, n: nat, override: Option<real>)
    requires n > 0 && weights.Valid()
    ensures var fallback := EffectiveFallback(weights, override);
      TotalsOf(ShardsOf(files, weights, n, override), weights, fallback)
        == Deal(SortedTuples(files, weights, fallback), n).totals
  {
    forall s | 0 <= s < n
      ensures TotalOf(ShardsOf(files, weights, n, override)[s], weights, EffectiveFallback(weights, override))
        == Deal(SortedTuples(files, weights, EffectiveFallback(weights, override)), n).totals[s]
    {
      TotalsRecomputed(files, weights, n, override, s);
    }
  }

  lemma WeightsWithin(files: seq<string>, weights: WeightMap, fallback: real, heaviest: real)
    requires forall f :: f in files ==> weights.Get(f, fallback) <= heaviest
    ensures forall i :: 0 <= i < |SortedTuples(files, weights, fallback)| ==>
      SortedTuples(files, weights, fallback)[i].weight <= heaviest
  {
    var ts := SortedTuples(files, weights, fallback);
    var unsorted := TuplesOf(files, weights, fallback);
    forall i | 0 <= i < |ts| ensures ts[i].weight <= heaviest {
      assert ts[i] in multiset(unsorted);
      var j :| 0 <= j < |unsorted| && unsorted[j] == ts[i];
      assert files[j] in files;
    }
  }

  // ---- equal weights: round-robin ----

  // After k turns of a round-robin over n shards: the complete rounds behind,
  // and whose turn it is.
  function Rounds(k: nat, n: nat): nat
    requires n > 0
  {
    if k == 0 then 0 else Rounds(k - 1, n) + if Seat(k - 1, n) == n - 1 then 1 else 0
  }

  function Seat(k: nat, n: nat): (s: nat)
    requires n > 0
    ensures s < n
  {
    if k == 0 || Seat(k - 1, n) == n - 1 then 0 else Seat(k - 1, n) + 1
  }

  lemma {:induction false} TurnsAddUp(k: nat, n: nat)
    requires n > 0
    ensures Rounds(k, n) * n + Seat(k, n) == k
  {
    if k > 0 {
      TurnsAddUp(k - 1, n);
      assert (Rounds(k - 1, n) + 1) * n == Rounds(k - 1, n) * n + n;
    }
  }

  // How many of the first k turns were shard s's.
  function Turns(k: nat, n: nat, s: nat): nat
    requires n > 0
  {
    Rounds(k, n) + if s < Seat(k, n) then 1 else 0
  }

  lemma NextTurn(k: nat, n: nat, s: nat)
    requires s < n
    ensures Turns(k + 1, n, s) == Turns(k, n, s) + if s == Seat(k, n) then 1 else 0
  {
  }

  lemma TurnsFirstMin(totals: seq<real>, k: nat, w: real)
    requires |totals| > 0 && w > 0.0
    requires forall s :: 0 <= s < |totals| ==> totals[s] == Times(Turns(k, |totals|, s), w)
    ensures IsFirstMin(totals, Seat(k, |totals|))
  {
    var n := |totals|;
    var q := Rounds(k, n);
    assert Times(q + 1, w) == Times(q, w) + w;
    forall s | 0 <= s < n
      ensures totals[s] == if s < Seat(k, n) then Times(q, w) + w else Times(q, w)
    {
    }
  }

  lemma DealLast(ts: seq<Tuple>, k: nat, n: nat, s: nat)
    requires s < n && |ts| == k + 1
    ensures var b, b' := Deal(ts[..k], n), Deal(ts, n);
      if s == FirstMin(b.totals)
      then b'.totals[s] == b.totals[s] + ts[k].weight && b'.shards[s] == b.shards[s] + [ts[k]]
      else b'.totals[s] == b.totals[s] && b'.shards[s] == b.shards[s]
  {
  }

  lemma OneMoreTime(turns: nat, turns': nat, w: real)
    requires turns' == turns + 1
    ensures Times(turns', w) == Times(turns, w) + w
  {
  }

  lemma {:induction false} EqualWeightsTotals(ts: seq<Tuple>, n: nat, w: real, s: nat)
    requires s < n && w > 0.0 && forall i :: 0 <= i < |ts| ==> ts[i].weight == w
    ensures Deal(ts, n).totals[s] == Times(Turns(|ts|, n, s), w)
    decreases |ts|, 0
  {
    if ts != [] {
      var k := |ts| - 1;
      var before := ts[..k];
      EqualWeightsTurn(before, n, w);
      EqualWeightsTotals(before, n, w, s);
      DealLast(ts, k, n, s);
      NextTurn(k, n, s);
      if s == Seat(k, n) {
        OneMoreTime(Turns(k, n, s), Turns(k + 1, n, s), w);
      }
    }
  }

  lemma {:induction false} EqualWeightsTurn(ts: seq<Tuple>, n: nat, w: real)
    requires n > 0 && w > 0.0 && forall i :: 0 <= i < |ts| ==> ts[i].weight == w
    ensures FirstMin(Deal(ts, n).totals) == Seat(|ts|, n)
    decreases |ts|, 1
  {
    var totals := Deal(ts, n).totals;
    forall s | 0 <= s < n ensures totals[s] == Times(Turns(|ts|, n, s), w) {
      EqualWeightsTotals(ts, n, w, s);
    }
    TurnsFirstMin(totals, |ts|, w);
    FirstMinUnique(totals, Seat(|ts|, n));
  }

  // The shard holds elements s, s + n, s + 2n, ... of the list and nothing else.
  ghost predicate EveryNth<T>(shard: seq<T>, list: seq<T>, n: nat, s: nat) {
    && |list| <= s + |shard| * n
    && forall j :: 0 <= j < |shard| ==> s + j * n < |list| && shard[j] == list[s + j * n]
  }

  lemma {:induction false} ShardSize(ts: seq<Tuple>, n: nat, w: real, s: nat)
    requires s < n && w > 0.0 && forall i :: 0 <= i < |ts| ==> ts[i].weight == w
    ensures |Deal(ts, n).shards[s]| == Turns(|ts|, n, s)
  {
    if ts != [] {
      var k := |ts| - 1;
      ShardSize(ts[..k], n, w, s);
      EqualWeightsTurn(ts[..k], n, w);
      DealLast(ts, k, n, s);
      NextTurn(k, n, s);
    }
  }

  // The tuple dealt next is the one its shard's turn asks for.
  lemma NextInTurn(ts: seq<Tuple>, n: nat, w: real, s: nat)
    requires n > 0 && w > 0.0 && forall i :: 0 <= i < |ts| ==> ts[i].weight == w
    requires s == FirstMin(Deal(ts, n).totals)
    ensures s + |Deal(ts, n).shards[s]| * n == |ts|
  {
    ShardSize(ts, n, w, s);
    EqualWeightsTurn(ts, n, w);
    TurnsAddUp(|ts|, n);
  }

  lemma {:induction false} DealtInTurn(ts: seq<Tuple>, n: nat, w: real, s: nat, j: nat, position: nat)
    requires s < n && w > 0.0 && forall i :: 0 <= i < |ts| ==> ts[i].weight == w
    requires j < |Deal(ts, n).shards[s]| && position == s + j * n
    ensures position < |ts| && Deal(ts, n).shards[s][j] == ts[position]
  {
    if ts == [] {
      assert false;
    } else {
      var k := |ts| - 1;
      DealLast(ts, k, n, s);
      if j < |Deal(ts[..k], n).shards[s]| {
        DealtInTurn(ts[..k], n, w, s, j, position);
      } else {
        NextInTurn(ts[..k], n, w, s);
      }
    }
  }

  lemma RoundRobin(ts: seq<Tuple>, n: nat, w: real, s: nat)
    requires s < n && w > 0.0 && forall i :: 0 <= i < |ts| ==> ts[i].weight == w
    ensures EveryNth(Deal(ts, n).shards[s], ts, n, s)
  {
    var shard := Deal(ts, n).shards[s];
    forall j | 0 <= j < |shard| ensures s + j * n < |ts| && shard[j] == ts[s + j * n] {
      DealtInTurn(ts, n, w, s, j, s + j * n);
    }
    ShardSize(ts, n, w, s);
    TurnsAddUp(|ts|, n);
    assert (Rounds(|ts|, n) + 1) * n == Rounds(|ts|, n) * n + n;
  }

  // The cold start: with no weights at all, every file counts as 1 and the
  // files are dealt round-robin in path order.
  lemma ColdStartIsRoundRobin(files: seq<string>, weights: WeightMap, n: nat, s: nat)
    requires s < n && weights.Valid() && weights.order == []
    ensures EveryNth(ShardsOf(files, weights, n, None)[s], Sort(StringLeq, files), n, s)
  {
    assert weights.Values() == [];
    assert EffectiveFallback(weights, None) == 1.0;
    forall p ensures weights.Get(p, 1.0) == 1.0 {
      assert p in weights.at <==> p in weights.order;
    }
    SortedTuplesFacts(files, weights, 1.0);
    RoundRobin(SortedTuples(files, weights, 1.0), n, 1.0, s);
    PathOrder(files, weights, 1.0);
    PathsEveryNth(Deal(SortedTuples(files, weights, 1.0), n).shards[s], SortedTuples(files, weights, 1.0), n, s);
  }

  lemma PathsEveryNth(shard: seq<Tuple>, ts: seq<Tuple>, n: nat, s: nat)
    requires EveryNth(shard, ts, n, s)
    ensures EveryNth(PathsOf(shard), PathsOf(ts), n, s)
  {
  }

  lemma PathsSorted(ts: seq<Tuple>, w: real)
    requires Sorted(Before, ts) && forall i :: 0 <= i < |ts| ==> ts[i].weight == w
    ensures Sorted(StringLeq, PathsOf(ts))
  {
    forall i, j | 0 <= i < j < |ts| ensures StringLeq(PathsOf(ts)[i], PathsOf(ts)[j]) {
      assert Before(ts[i], ts[j]);
    }
  }

  lemma PathsPermuted(files: seq<string>, weights: WeightMap, fallback: real)
    ensures multiset(PathsOf(SortedTuples(files, weights, fallback))) == multiset(files)
  {
    var ts := SortedTuples(files, weights, fallback);
    var unsorted := Mapped(ToTuple(weights, fallback), files);
    SortedTuplesFacts(files, weights, fallback);
    MapPermuted(PathOf, ts, unsorted);
    assert Mapped(PathOf, unsorted) == files;
    assert Mapped(PathOf, ts) == PathsOf(ts);
  }

  // Tuples of one common weight are sorted by path alone.
  lemma PathOrder(files: seq<string>, weights: WeightMap, w: real)
    requires forall p :: weights.Get(p, w) == w
    ensures PathsOf(SortedTuples(files, weights, w)) == Sort(StringLeq, files)
  {
    var paths := PathsOf(SortedTuples(files, weights, w));
    SortedTuplesFacts(files, weights, w);
    PathsSorted(SortedTuples(files, weights, w), w);
    PathsPermuted(files, weights, w);
    StringOrder();
    SortSorts(StringLeq, files);
    assert TellsApart(StringLeq, paths);
    SortedUnique(StringLeq, paths, Sort(StringLeq, files));
  }
}
