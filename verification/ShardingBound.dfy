// Graham's makespan bound for the greedy partition: whatever rival assignment
// of the same files to the same number of shards one compares with, no shard
// is heavier than 4/3 - 1/(3n) times the rival's heaviest.
module ShardingBound {
  import opened Sums
  import opened Sharding

  function Weight(t: Tuple): real {
    t.weight
  }

  // A tuple heavier than the cut is worth two, any other one.
  function Worth(cut: real): Tuple -> real {
    (t: Tuple) => if t.weight > cut then 2.0 else 1.0
  }

  ghost predicate HeaviestFirst(ts: seq<Tuple>) {
    forall i, j :: 0 <= i < j < |ts| ==> ts[i].weight >= ts[j].weight
  }

  ghost predicate NonNegative(ts: seq<Tuple>) {
    forall i :: 0 <= i < |ts| ==> ts[i].weight >= 0.0
  }

  // Rival groups of the same tuples, none heavier than the makespan.
  ghost predicate Rival(ts: seq<Tuple>, n: nat, rival: seq<seq<Tuple>>, makespan: real) {
    && |rival| == n
    && multiset(Flatten(rival)) == multiset(ts)
    && forall s :: 0 <= s < n ==> Sum(Weight, rival[s]) <= makespan
  }

  // The running totals are the sums of what the shards hold.
  lemma {:induction false} TotalsAreSums(ts: seq<Tuple>, n: nat, s: nat)
    requires s < n
    ensures Deal(ts, n).totals[s] == Sum(Weight, Deal(ts, n).shards[s])
  {
    if ts != [] {
      TotalsAreSums(ts[..|ts| - 1], n, s);
      SumAppend(Weight, Deal(ts[..|ts| - 1], n).shards[s], ts[|ts| - 1]);
    }
  }

  lemma DropLast(ts: seq<Tuple>)
    requires ts != []
    ensures multiset(ts) == multiset(ts[..|ts| - 1]) + multiset{ts[|ts| - 1]}
    ensures ts[|ts| - 1] in multiset(ts)
  {
    assert ts == ts[..|ts| - 1] + [ts[|ts| - 1]];
  }

  lemma NothingDealt(n: nat)
    requires n > 0
    ensures Flatten(Deal([], n).shards) == []
  {
    FlattenEmpty<Tuple>(n);
    assert Deal([], n).shards == seq(n, _ => []);
  }

  // Together the shards hold exactly what has been dealt.
  lemma {:induction false} DealConserves(ts: seq<Tuple>, n: nat)
    requires n > 0
    ensures multiset(Flatten(Deal(ts, n).shards)) == multiset(ts)
  {
    if ts == [] {
      NothingDealt(n);
    } else {
      var k := |ts| - 1;
      DealConserves(ts[..k], n);
      var b := Deal(ts[..k], n);
      AppendToGroup(b.shards, FirstMin(b.totals), ts[k]);
      DropLast(ts);
    }
  }

  lemma AppendToGroup(groups: seq<seq<Tuple>>, m: nat, t: Tuple)
    requires m < |groups|
    ensures multiset(Flatten(groups[m := groups[m] + [t]])) == multiset(Flatten(groups)) + multiset{t}
  {
    FlattenUpdate(groups, m, groups[m] + [t]);
  }

  lemma {:induction false} FlattenEmpty<T>(n: nat)
    ensures Flatten<T>(seq(n, _ => [])) == []
  {
    if n > 0 {
      assert seq<seq<T>>(n, _ => [])[..n - 1] == seq(n - 1, _ => []);
      FlattenEmpty<T>(n - 1);
    }
  }

  lemma GroupMember(ts: seq<Tuple>, n: nat, groups: seq<seq<Tuple>>, s: nat, i: nat)
    requires multiset(Flatten(groups)) == multiset(ts) && s < |groups| && i < |groups[s]|
    ensures groups[s][i] in ts
  {
    FlattenUpdate(groups, s, groups[s]);
    assert groups[s][i] in multiset(groups[s]);
    assert groups[s][i] in multiset(ts);
  }

  lemma LighterGroup(xs: seq<Tuple>, i: nat)
    requires i < |xs| && xs[i].weight >= 0.0
    ensures Sum(Weight, Without(xs, i)) <= Sum(Weight, xs)
  {
    SumWithout(Weight, xs, i);
  }

  // The rival without the lightest tuple is still a rival.
  lemma RivalPrefix(ts: seq<Tuple>, n: nat, rival: seq<seq<Tuple>>, makespan: real) returns (rest: seq<seq<Tuple>>)
    requires ts != [] && NonNegative(ts) && Rival(ts, n, rival, makespan)
    ensures Rival(ts[..|ts| - 1], n, rest, makespan)
  {
    DropLast(ts);
    var s, i;
    s, i, rest := TakeOut(rival, ts[|ts| - 1]);
    LighterGroup(rival[s], i);
    forall j | 0 <= j < n ensures Sum(Weight, rest[j]) <= makespan {
      assert j != s ==> rest[j] == rival[j];
    }
  }

  lemma LoneTupleFits(ts: seq<Tuple>, n: nat, rival: seq<seq<Tuple>>, makespan: real)
    requires ts != [] && NonNegative(ts) && Rival(ts, n, rival, makespan)
    ensures ts[|ts| - 1].weight <= makespan
  {
    assert ts[|ts| - 1] in multiset(ts);
    var s, i := FlattenFind(rival, ts[|ts| - 1]);
    SumWithout(Weight, rival[s], i);
    forall x | x in Without(rival[s], i) ensures Weight(x) >= 0.0 {
      assert x in multiset(Without(rival[s], i));
      var j :| 0 <= j < |rival[s]| && rival[s][j] == x;
      GroupMember(ts, n, rival, s, j);
    }
    SumNonNegative(Weight, Without(rival[s], i));
  }

  // A group within the makespan whose tuples all exceed a third of it is worth
  // at most two: two light ones, or a heavy one alone.
  lemma {:induction false} RivalWorth(xs: seq<Tuple>, w: real, makespan: real)
    requires 3.0 * w > makespan >= w
    requires forall i :: 0 <= i < |xs| ==> xs[i].weight >= w
    ensures var v := Sum(Worth(makespan - w), xs);
      var load := Sum(Weight, xs);
      || (v == 0.0 && load == 0.0)
      || (v == 1.0 && load >= w)
      || (v == 2.0 && load > makespan - w)
      || (v >= 3.0 && load > makespan)
  {
    if xs != [] {
      RivalWorth(xs[..|xs| - 1], w, makespan);
    }
  }

  // A group heavier than the cut is worth at least two.
  lemma {:induction false} GreedyWorth(xs: seq<Tuple>, cut: real)
    requires cut >= 0.0
    ensures var v := Sum(Worth(cut), xs);
      var load := Sum(Weight, xs);
      || (v == 0.0 && load == 0.0)
      || (v == 1.0 && load <= cut)
      || v >= 2.0
  {
    if xs != [] {
      GreedyWorth(xs[..|xs| - 1], cut);
    }
  }

  lemma LastIsLightest(ts: seq<Tuple>, t: Tuple)
    requires t in ts && HeaviestFirst(ts)
    ensures t.weight >= ts[|ts| - 1].weight
  {
    var i :| 0 <= i < |ts| && ts[i] == t;
  }

  lemma RivalGroupWorth(ts: seq<Tuple>, n: nat, rival: seq<seq<Tuple>>, makespan: real, s: nat)
    requires ts != [] && HeaviestFirst(ts) && Rival(ts, n, rival, makespan) && s < n
    requires 3.0 * ts[|ts| - 1].weight > makespan >= ts[|ts| - 1].weight
    ensures Sum(Worth(makespan - ts[|ts| - 1].weight), rival[s]) <= 2.0
  {
    forall i | 0 <= i < |rival[s]| ensures rival[s][i].weight >= ts[|ts| - 1].weight {
      GroupMember(ts, n, rival, s, i);
      LastIsLightest(ts, rival[s][i]);
    }
    RivalWorth(rival[s], ts[|ts| - 1].weight, makespan);
  }

  lemma RivalHasRoomForTwiceN(ts: seq<Tuple>, n: nat, rival: seq<seq<Tuple>>, makespan: real)
    requires ts != [] && HeaviestFirst(ts) && Rival(ts, n, rival, makespan)
    requires 3.0 * ts[|ts| - 1].weight > makespan >= ts[|ts| - 1].weight
    ensures Sum(Worth(makespan - ts[|ts| - 1].weight), ts) <= Times(n, 2.0)
  {
    var worth := Worth(makespan - ts[|ts| - 1].weight);
    forall s | 0 <= s < n ensures Sum(worth, rival[s]) <= 2.0 {
      RivalGroupWorth(ts, n, rival, makespan, s);
    }
    SumAllAtMost(worth, rival, 2.0);
    SumAllPermuted(worth, ts, rival);
  }

  lemma FullShardsHoldTwiceN(ts: seq<Tuple>, n: nat, cut: real)
    requires n > 0 && cut >= 0.0
    requires forall s :: 0 <= s < n ==> Deal(ts, n).totals[s] > cut
    ensures Sum(Worth(cut), ts) >= Times(n, 2.0)
  {
    var b := Deal(ts, n);
    forall s | 0 <= s < n ensures Sum(Worth(cut), b.shards[s]) >= 2.0 {
      TotalsAreSums(ts, n, s);
      GreedyWorth(b.shards[s], cut);
    }
    SumAllAtLeast(Worth(cut), b.shards, 2.0);
    DealConserves(ts, n);
    SumAllPermuted(Worth(cut), ts, b.shards);
  }

  // When every tuple exceeds a third of the makespan, some shard still has
  // room for the next one: otherwise the shards already hold more worth than
  // the rival has place for.
  lemma RoomLeft(ts: seq<Tuple>, n: nat, rival: seq<seq<Tuple>>, makespan: real)
    requires n > 0 && ts != [] && HeaviestFirst(ts) && NonNegative(ts) && Rival(ts, n, rival, makespan)
    requires 3.0 * ts[|ts| - 1].weight > makespan
    ensures var totals := Deal(ts[..|ts| - 1], n).totals;
      totals[FirstMin(totals)] + ts[|ts| - 1].weight <= makespan
  {
    var k := |ts| - 1;
    var cut := makespan - ts[k].weight;
    var totals := Deal(ts[..k], n).totals;
    LoneTupleFits(ts, n, rival, makespan);
    if totals[FirstMin(totals)] > cut {
      FullShardsHoldTwiceN(ts[..k], n, cut);
      RivalHasRoomForTwiceN(ts, n, rival, makespan);
      assert false;
    }
  }

  // The least total is at most the average of what has been dealt.
  lemma MinimumIsBelowAverage(ts: seq<Tuple>, n: nat)
    requires n > 0
    ensures var totals := Deal(ts, n).totals; Times(n, totals[FirstMin(totals)]) <= Sum(Weight, ts)
  {
    var b := Deal(ts, n);
    var low := b.totals[FirstMin(b.totals)];
    forall s | 0 <= s < n ensures low <= Sum(Weight, b.shards[s]) {
      TotalsAreSums(ts, n, s);
    }
    SumAllAtLeast(Weight, b.shards, low);
    DealConserves(ts, n);
    SumAllPermuted(Weight, ts, b.shards);
  }

  lemma RivalCarriesEverything(ts: seq<Tuple>, n: nat, rival: seq<seq<Tuple>>, makespan: real)
    requires Rival(ts, n, rival, makespan)
    ensures Sum(Weight, ts) <= Times(n, makespan)
  {
    SumAllAtMost(Weight, rival, makespan);
    SumAllPermuted(Weight, ts, rival);
  }

  // x is at most (4/3 - 1/(3n)) times the makespan.
  ghost predicate WithinBound(n: nat, x: real, makespan: real) {
    3.0 * Times(n, x) <= 4.0 * Times(n, makespan) - makespan
  }

  lemma {:induction false} ThreeTimes(n: nat, w: real, makespan: real)
    requires 3.0 * w <= makespan
    ensures 3.0 * Times(n, w) <= Times(n, makespan)
  {
    if n > 0 {
      ThreeTimes(n - 1, w, makespan);
    }
  }

  lemma LightPush(n: nat, low: real, w: real, makespan: real)
    requires n > 0 && 3.0 * w <= makespan
    requires Times(n, low) <= Times(n, makespan) - w
    ensures WithinBound(n, low + w, makespan)
  {
    TimesAdds(n, low, w);
    ThreeTimes(n - 1, w, makespan);
    var all, rest := Times(n, makespan), Times(n - 1, w);
    assert Times(n, w) == rest + w;
    assert Times(n, low + w) <= all + rest;
    assert 3.0 * rest <= all - makespan;
  }

  lemma FittingPush(n: nat, x: real, makespan: real)
    requires n > 0 && x <= makespan && makespan >= 0.0
    ensures WithinBound(n, x, makespan)
  {
    TimesMonotone(n, x, makespan);
    TimesMonotone(n - 1, 0.0, makespan);
    TimesIsProduct(n - 1, 0.0);
  }

  lemma {:induction false} RivalOfNothing(n: nat, rival: seq<seq<Tuple>>, makespan: real)
    requires n > 0 && Rival([], n, rival, makespan)
    ensures makespan >= 0.0
    ensures WithinBound(n, 0.0, makespan)
  {
    FlattenUpdate(rival, 0, rival[0]);
    assert |multiset(rival[0])| <= |multiset(Flatten(rival))| == 0;
    assert rival[0] == [] && Sum(Weight, rival[0]) == 0.0;
    FittingPush(n, 0.0, makespan);
  }

  // One step: where the next tuple is pushed, the bound holds.
  lemma NextPushWithinBound(ts: seq<Tuple>, n: nat, rival: seq<seq<Tuple>>, makespan: real)
    requires n > 0 && ts != [] && HeaviestFirst(ts) && NonNegative(ts) && Rival(ts, n, rival, makespan)
    requires makespan >= 0.0
    ensures var totals := Deal(ts[..|ts| - 1], n).totals;
      WithinBound(n, totals[FirstMin(totals)] + ts[|ts| - 1].weight, makespan)
  {
    var k := |ts| - 1;
    MinimumIsBelowAverage(ts[..k], n);
    RivalCarriesEverything(ts, n, rival, makespan);
    var totals := Deal(ts[..k], n).totals;
    if 3.0 * ts[k].weight > makespan {
      RoomLeft(ts, n, rival, makespan);
      FittingPush(n, totals[FirstMin(totals)] + ts[k].weight, makespan);
    } else {
      LightPush(n, totals[FirstMin(totals)], ts[k].weight, makespan);
    }
  }

  lemma {:induction false} DealWithinBound(ts: seq<Tuple>, n: nat, rival: seq<seq<Tuple>>, makespan: real)
    requires n > 0 && HeaviestFirst(ts) && NonNegative(ts) && Rival(ts, n, rival, makespan)
    ensures makespan >= 0.0
    ensures forall s :: 0 <= s < n ==> WithinBound(n, Deal(ts, n).totals[s], makespan)
    decreases |ts|
  {
    if ts == [] {
      RivalOfNothing(n, rival, makespan);
    } else {
      var rest := RivalPrefix(ts, n, rival, makespan);
      DealWithinBound(ts[..|ts| - 1], n, rest, makespan);
      NextPushWithinBound(ts, n, rival, makespan);
    }
  }
}
