// Bounded waiting: how often the per-tick cap can pass over a stale source
// when every dispatched cycle succeeds (src/commands/autopilot-fanout.ts).
module FanoutWaiting {
  import opened Collections
  import opened Sorting
  import opened Fanout

  function IdOf(s: Source): string {
    s.id
  }

  ghost function Ids(xs: seq<Source>): set<string> {
    set x | x in xs :: x.id
  }

  // The same sources, one tick later. A dispatched source has completed a full
  // cycle, stamped no earlier than the tick; no other full-cycle stamp moves.
  // Failures, and the per-source stamps that only clear cooldowns, are free.
  ghost predicate AllSucceed(c: Config, t: Tick, t': Tick) {
    && t.now <= t'.now && |t'.sources| == |t.sources|
    && forall i :: 0 <= i < |t.sources| ==>
      && t'.sources[i].id == t.sources[i].id
      && (if t.sources[i] in Selected(c, t).dispatch
          then t'.sources[i].lastFullCycleAt.At? && t'.sources[i].lastFullCycleAt.ms >= t.now
          else t'.sources[i].lastFullCycleAt == t.sources[i].lastFullCycleAt)
  }

  // The sources queued ahead of source p.
  ghost function AheadOf(c: Config, t: Tick, p: nat): set<string>
    requires p < |t.sources|
  {
    set i | 0 <= i < |t.sources| && i != p && Ahead(c.idLeq, t.sources[i], t.sources[p]) :: t.sources[i].id
  }

  lemma CopyOnce(xs: seq<Source>, p: nat)
    requires p < |xs| && DistinctBy(xs, IdOf)
    ensures multiset(xs)[xs[p]] == 1
  {
    assert xs == xs[..p] + [xs[p]] + xs[p + 1..];
    assert xs[p] !in xs[..p] && xs[p] !in xs[p + 1..];
  }

  lemma DistinctPermuted(a: seq<Source>, b: seq<Source>)
    requires DistinctBy(a, IdOf) && multiset(b) <= multiset(a)
    ensures DistinctBy(b, IdOf)
  {
    forall i, j | 0 <= i < j < |b| ensures b[i].id != b[j].id {
      assert b[i] in multiset(b) && b[j] in multiset(b);
      var p :| 0 <= p < |a| && a[p] == b[i];
      var q :| 0 <= q < |a| && a[q] == b[j];
      if p == q {
        TwoCopies(b, i, j);
        CopyOnce(a, p);
        assert false;
      }
    }
  }

  lemma {:induction false} IdsCounted(xs: seq<Source>)
    requires DistinctBy(xs, IdOf)
    ensures |Ids(xs)| == |xs|
  {
    if xs != [] {
      var k := |xs| - 1;
      IdsCounted(xs[..k]);
      assert xs == xs[..k] + [xs[k]];
      assert Ids(xs) == Ids(xs[..k]) + {xs[k].id};
      assert xs[k].id !in Ids(xs[..k]);
    }
  }

  ghost predicate Skipped(c: Config, t: Tick, p: nat)
    requires p < |t.sources|
  {
    t.sources[p] in Selected(c, t).skippedCap
  }

  lemma DispatchWithin(c: Config, t: Tick)
    requires DistinctBy(t.sources, IdOf)
    ensures DistinctBy(Selected(c, t).dispatch, IdOf)
  {
    var r := Selected(c, t);
    SelectionCovers(c.idLeq, t.sources, t.fanoutMax, t.now, c.floorMin, t.failures, c.opts);
    DistinctPermuted(t.sources, r.dispatch);
  }

  // A source the cap passes over has a full dispatch ahead of it.
  lemma SkippedBehindFullDispatch(c: Config, t: Tick, p: nat)
    requires TotalPreorder(c.idLeq) && DistinctBy(t.sources, IdOf) && p < |t.sources| && Skipped(c, t, p)
    ensures t.sources[p] !in Selected(c, t).dispatch
    ensures Ids(Selected(c, t).dispatch) <= AheadOf(c, t, p)
    ensures |Ids(Selected(c, t).dispatch)| == t.fanoutMax
  {
    var r := Selected(c, t);
    var s := t.sources[p];
    SelectionIsOldest(c.idLeq, t.sources, t.fanoutMax, t.now, c.floorMin, t.failures, c.opts, s);
    SelectionCovers(c.idLeq, t.sources, t.fanoutMax, t.now, c.floorMin, t.failures, c.opts);
    CopyOnce(t.sources, p);
    assert multiset(r.skippedCap)[s] >= 1;
    assert multiset(r.dispatch)[s] == 0;
    forall d | d in r.dispatch ensures d.id in AheadOf(c, t, p) {
      SelectionIsOldest(c.idLeq, t.sources, t.fanoutMax, t.now, c.floorMin, t.failures, c.opts, d);
      var i :| 0 <= i < |t.sources| && t.sources[i] == d;
      assert i != p;
    }
    DispatchWithin(c, t);
    IdsCounted(r.dispatch);
  }

  // Newly stale and re-run sources sort behind a source that is still waiting.
  lemma StillAheadWasAhead(c: Config, t: Tick, t': Tick, p: nat, i: nat)
    requires c.floorMin > 0 && p < |t.sources| && AllSucceed(c, t, t')
    requires IsSourceStale(t.sources[p], t.now, c.floorMin) && t.sources[p] !in Selected(c, t).dispatch
    requires i < |t.sources| && Ahead(c.idLeq, t'.sources[i], t'.sources[p])
    ensures t.sources[i] !in Selected(c, t).dispatch && Ahead(c.idLeq, t.sources[i], t.sources[p])
    ensures IsSourceStale(t'.sources[p], t'.now, c.floorMin)
  {
  }

  // So the set ahead of it only loses members, and loses all the dispatched ones.
  lemma AheadShrinks(c: Config, t: Tick, t': Tick, p: nat)
    requires c.floorMin > 0 && p < |t.sources| && AllSucceed(c, t, t') && DistinctBy(t.sources, IdOf)
    requires IsSourceStale(t.sources[p], t.now, c.floorMin) && t.sources[p] !in Selected(c, t).dispatch
    ensures AheadOf(c, t', p) <= AheadOf(c, t, p) - Ids(Selected(c, t).dispatch)
  {
    forall id | id in AheadOf(c, t', p) ensures id in AheadOf(c, t, p) && id !in Ids(Selected(c, t).dispatch) {
      var i :| 0 <= i < |t'.sources| && i != p && Ahead(c.idLeq, t'.sources[i], t'.sources[p]) && t'.sources[i].id == id;
      StillAheadWasAhead(c, t, t', p, i);
      assert t.sources[i].id == id;
      NotDispatched(c, t, i);
    }
  }

  lemma NotDispatched(c: Config, t: Tick, i: nat)
    requires i < |t.sources| && DistinctBy(t.sources, IdOf) && t.sources[i] !in Selected(c, t).dispatch
    ensures t.sources[i].id !in Ids(Selected(c, t).dispatch)
  {
    forall d | d in Selected(c, t).dispatch ensures d.id != t.sources[i].id {
      DispatchedIsSource(c, t, d);
    }
  }

  lemma DispatchedIsSource(c: Config, t: Tick, d: Source)
    requires d in Selected(c, t).dispatch
    ensures d in t.sources
  {
    SelectionCovers(c.idLeq, t.sources, t.fanoutMax, t.now, c.floorMin, t.failures, c.opts);
    assert d in multiset(Selected(c, t).dispatch);
    assert d in multiset(t.sources);
  }

  // A run up to the point where source p is dispatched: it is stale at the
  // start, and every dispatched cycle succeeds before the next tick.
  ghost predicate Waits(c: Config, ticks: seq<Tick>, p: nat) {
    && ticks != [] && p < |ticks[0].sources| && DistinctBy(ticks[0].sources, IdOf)
    && IsSourceStale(ticks[0].sources[p], ticks[0].now, c.floorMin)
    && (|ticks| > 1 ==>
      && ticks[0].sources[p] !in Selected(c, ticks[0]).dispatch
      && AllSucceed(c, ticks[0], ticks[1])
      && Waits(c, ticks[1..], p))
  }

  // The caps of the ticks that passed over the source.
  ghost function SkippedCaps(c: Config, ticks: seq<Tick>, p: nat): seq<nat>
    requires Waits(c, ticks, p)
  {
    (if Skipped(c, ticks[0], p) then [ticks[0].fanoutMax] else []) + if |ticks| == 1 then [] else SkippedCaps(c, ticks[1..], p)
  }

  function Total(caps: seq<nat>): nat {
    if caps == [] then 0 else caps[0] + Total(caps[1..])
  }

  lemma TotalMore(cap: nat, caps: seq<nat>)
    ensures Total([cap] + caps) == cap + Total(caps)
  {
    assert ([cap] + caps)[1..] == caps;
  }

  // One tick: a cap skip costs fanoutMax of the sources ahead, no tick adds any.
  lemma OneTick(c: Config, t: Tick, t': Tick, p: nat)
    requires TotalPreorder(c.idLeq) && c.floorMin > 0 && p < |t.sources| && DistinctBy(t.sources, IdOf) && AllSucceed(c, t, t')
    requires IsSourceStale(t.sources[p], t.now, c.floorMin) && t.sources[p] !in Selected(c, t).dispatch
    ensures |AheadOf(c, t', p)| + (if Skipped(c, t, p) then t.fanoutMax else 0) <= |AheadOf(c, t, p)|
  {
    var dispatched := Ids(Selected(c, t).dispatch);
    AheadShrinks(c, t, t', p);
    if Skipped(c, t, p) {
      SkippedBehindFullDispatch(c, t, p);
      SubsetSize(AheadOf(c, t', p), AheadOf(c, t, p) - dispatched);
      assert |AheadOf(c, t, p) - dispatched| == |AheadOf(c, t, p)| - |dispatched|;
    } else {
      SubsetSize(AheadOf(c, t', p), AheadOf(c, t, p));
    }
  }

  lemma LastTick(c: Config, t: Tick, p: nat)
    requires TotalPreorder(c.idLeq) && p < |t.sources| && DistinctBy(t.sources, IdOf) && Skipped(c, t, p)
    ensures t.fanoutMax <= |AheadOf(c, t, p)|
  {
    SkippedBehindFullDispatch(c, t, p);
    SubsetSize(Ids(Selected(c, t).dispatch), AheadOf(c, t, p));
  }

  lemma FirstOfMany(c: Config, ticks: seq<Tick>, p: nat, later: seq<nat>)
    requires Waits(c, ticks, p) && |ticks| > 1 && later == SkippedCaps(c, ticks[1..], p)
    ensures SkippedCaps(c, ticks, p) == (if Skipped(c, ticks[0], p) then [ticks[0].fanoutMax] else []) + later
    ensures Total(SkippedCaps(c, ticks, p)) == (if Skipped(c, ticks[0], p) then ticks[0].fanoutMax else 0) + Total(later)
  {
    TotalMore(ticks[0].fanoutMax, later);
    assert [] + later == later;
  }

  lemma OnlyOne(c: Config, ticks: seq<Tick>, p: nat)
    requires Waits(c, ticks, p) && |ticks| == 1
    ensures SkippedCaps(c, ticks, p) == if Skipped(c, ticks[0], p) then [ticks[0].fanoutMax] else []
    ensures Total(SkippedCaps(c, ticks, p)) == if Skipped(c, ticks[0], p) then ticks[0].fanoutMax else 0
  {
    TotalMore(ticks[0].fanoutMax, []);
    assert [ticks[0].fanoutMax] + [] == [ticks[0].fanoutMax];
  }

  // Over the whole wait of a stale source, the caps of the ticks that passed
  // over it add up to at most the number of sources queued ahead at the start.
  lemma {:induction false} BoundedWaiting(c: Config, ticks: seq<Tick>, p: nat)
    requires TotalPreorder(c.idLeq) && c.floorMin > 0 && Waits(c, ticks, p)
    ensures Total(SkippedCaps(c, ticks, p)) <= |AheadOf(c, ticks[0], p)|
    decreases |ticks|
  {
    if |ticks| == 1 {
      OnlyOne(c, ticks, p);
      if Skipped(c, ticks[0], p) {
        LastTick(c, ticks[0], p);
      }
    } else {
      BoundedWaiting(c, ticks[1..], p);
      FirstOfMany(c, ticks, p, SkippedCaps(c, ticks[1..], p));
      OneTick(c, ticks[0], ticks[1], p);
    }
  }

  ghost predicate AllAtLeast(caps: seq<nat>, least: nat) {
    forall i :: 0 <= i < |caps| ==> caps[i] >= least
  }

  lemma {:induction false} CapsAtLeast(c: Config, ticks: seq<Tick>, p: nat, least: nat)
    requires Waits(c, ticks, p) && forall k :: 0 <= k < |ticks| ==> ticks[k].fanoutMax >= least
    ensures AllAtLeast(SkippedCaps(c, ticks, p), least)
    decreases |ticks|
  {
    if |ticks| == 1 {
      OnlyOne(c, ticks, p);
    } else {
      CapsAtLeast(c, ticks[1..], p, least);
      FirstOfMany(c, ticks, p, SkippedCaps(c, ticks[1..], p));
    }
  }

  lemma {:induction false} CountTimesLeast(caps: seq<nat>, least: nat)
    requires AllAtLeast(caps, least)
    ensures |caps| * least <= Total(caps)
  {
    if caps != [] {
      CountTimesLeast(caps[1..], least);
      assert |caps| * least == (|caps| - 1) * least + least;
    }
  }

  // So with r sources ahead, and a cap that never falls below some least cap,
  // it is passed over at most floor(r / least) times before its turn comes.
  lemma WaitingQuotient(c: Config, ticks: seq<Tick>, p: nat, least: nat)
    requires TotalPreorder(c.idLeq) && c.floorMin > 0 && Waits(c, ticks, p)
    requires forall k :: 0 <= k < |ticks| ==> ticks[k].fanoutMax >= least
    ensures |SkippedCaps(c, ticks, p)| * least <= |AheadOf(c, ticks[0], p)|
  {
    BoundedWaiting(c, ticks, p);
    CapsAtLeast(c, ticks, p, least);
    CountTimesLeast(SkippedCaps(c, ticks, p), least);
  }

  ghost predicate AlwaysEligible(c: Config, ticks: seq<Tick>, p: nat) {
    forall k :: 0 <= k < |ticks| ==>
      p < |ticks[k].sources| && Judge(ticks[k].sources[p], ticks[k].now, c.floorMin, ticks[k].failures, c.opts) == Eligible
  }

  lemma DispatchedOrSkipped(c: Config, t: Tick, p: nat)
    requires TotalPreorder(c.idLeq) && p < |t.sources|
    requires Judge(t.sources[p], t.now, c.floorMin, t.failures, c.opts) == Eligible
    ensures t.sources[p] in Selected(c, t).dispatch || Skipped(c, t, p)
  {
    SelectionIsOldest(c.idLeq, t.sources, t.fanoutMax, t.now, c.floorMin, t.failures, c.opts, t.sources[p]);
  }

  ghost predicate DispatchedLast(c: Config, ticks: seq<Tick>, p: nat)
    requires Waits(c, ticks, p)
    decreases |ticks|
  {
    if |ticks| == 1 then ticks[0].sources[p] in Selected(c, ticks[0]).dispatch else DispatchedLast(c, ticks[1..], p)
  }

  // A source that is eligible all along is passed over at every tick but the
  // last, and at that one unless it is dispatched.
  lemma {:induction false} SkippedAllAlong(c: Config, ticks: seq<Tick>, p: nat)
    requires TotalPreorder(c.idLeq) && Waits(c, ticks, p) && AlwaysEligible(c, ticks, p)
    ensures |SkippedCaps(c, ticks, p)| >= |ticks| - 1
    ensures !DispatchedLast(c, ticks, p) ==> |SkippedCaps(c, ticks, p)| == |ticks|
    decreases |ticks|
  {
    DispatchedOrSkipped(c, ticks[0], p);
    if |ticks| == 1 {
      OnlyOne(c, ticks, p);
    } else {
      var rest := ticks[1..];
      assert forall k :: 0 <= k < |rest| ==> rest[k] == ticks[k + 1];
      SkippedAllAlong(c, rest, p);
      FirstOfMany(c, ticks, p, SkippedCaps(c, rest, p));
    }
  }

  lemma TimesGrows(a: nat, b: nat, least: nat)
    requires a <= b
    ensures a * least <= b * least
  {
  }

  // So it waits for at most floor(r / least) ticks: once that many have passed
  // over it, the next one dispatches it.
  lemma ServedWithin(c: Config, ticks: seq<Tick>, p: nat, least: nat)
    requires TotalPreorder(c.idLeq) && c.floorMin > 0 && Waits(c, ticks, p) && AlwaysEligible(c, ticks, p)
    requires forall k :: 0 <= k < |ticks| ==> ticks[k].fanoutMax >= least
    ensures (|ticks| - 1) * least <= |AheadOf(c, ticks[0], p)|
    ensures |ticks| * least > |AheadOf(c, ticks[0], p)| ==> DispatchedLast(c, ticks, p)
  {
    SkippedAllAlong(c, ticks, p);
    WaitingQuotient(c, ticks, p, least);
    TimesGrows(|ticks| - 1, |SkippedCaps(c, ticks, p)|, least);
  }
}
